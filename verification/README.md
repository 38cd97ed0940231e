# Smart bookmark dashboard — a Dafny model

This project models the client-side core of a bookmark manager. A signed-in
user keeps a list of bookmarks in a database table. The dashboard page loads
the user's rows once. It then keeps the visible list in step with two inputs:
change events pushed by the database's realtime channel, and the answers to
the user's own add and delete requests. The goal is that no bookmark is ever
listed twice, whatever order those inputs arrive in.

Modules:

- `Results` (results.dfy): `Option` and `Result`.
- `Strings` (strings.dfy): the JavaScript string operations the code relies on.
  These are `trim` (with the ECMAScript whitespace set), `split` on one
  character, `join`, `indexOf`/`includes`, `replace` of the first occurrence,
  `Number#toString` and `parseInt` on digit strings.
- `BookmarkTypes` (types.dfy, from lib/types.ts): the table row, the UI
  bookmark and the conversions between them. The table stores the literal
  placeholder `"NA"` for a missing value; the UI uses real absence. For
  trimmed, comma-free tags (what the add form produces) the round-trip
  lemmas state exactly what that encoding loses. Any other tag comes back
  split at its commas and trimmed (`BookmarkTypes.TagWithCommaSplits`).
- `Utils` (utils.dfy, from lib/utils.ts): URL validity, domain extraction and
  the favicon-service address. The platform URL parser is a parameter
  (`HostParser`) that yields the hostname or nothing. Every property holds for
  any parser.
- `AddBookmarkModal` (add_bookmark_modal.dfy, from
  components/AddBookmarkModal.tsx): the form's checks in their fixed order,
  tag parsing, and the form object whose fields are cleared after a
  successful submit.
- `Dashboard` (dashboard.dfy, from app/dashboard/page.tsx): the list updates
  as pure functions, their reconciliation lemmas, the classification of load
  errors, and the page object with its handlers.

Deletion is not optimistic, despite the comment "Optimistically remove from
UI" (app/dashboard/page.tsx:292). That removal comes after the error check at
app/dashboard/page.tsx:285-290. So the entry leaves the list only once the
soft-delete request returns without error. On an error or an exception the
list is left as it was and a message is shown
(`Dashboard.DashboardPage.DeleteBookmark`).

## Model

| member | source | states |
|---|---|---|
| Strings.Trim | components/AddBookmarkModal.tsx:28 | The result has no whitespace at either end. It is no longer than the input and uses only the input's characters. It is empty exactly when the input is all whitespace. |
| Strings.TrimOfTrimmed | components/AddBookmarkModal.tsx:45 | A string with no whitespace at either end is returned unchanged. |
| Strings.TrimIgnoresPadding | components/AddBookmarkModal.tsx:45 | Whitespace added on either side never changes the result of `trim`. |
| Strings.DropEmpty | components/AddBookmarkModal.tsx:46 | The kept elements are exactly the non-empty elements of the input. None is empty, and the result is no longer than the input. |
| Strings.DropEmptyConcat | components/AddBookmarkModal.tsx:46 | Filtering is element by element, so it keeps the input order. |
| Strings.Split | lib/types.ts:48 | `split(',')` yields one piece more than there are separators, and no piece contains the separator. |
| Strings.JoinSplit | lib/types.ts:48 | Joining the pieces of a split with the separator gives back the original text. |
| Strings.SplitJoin | lib/types.ts:71 | Splitting a join of one or more separator-free pieces gives back the pieces (a join of no pieces is "", which splits to [""]). |
| Strings.SplitConcat | components/AddBookmarkModal.tsx:44 | Splitting at a separator splits the two sides independently. |
| Strings.TrimSplitJoinPadded | lib/types.ts:71 | Suppose there are one or more pieces, trimmed and separator-free, and they are joined by the separator plus whitespace (", "). Splitting and trimming that text gives the pieces back. |
| Strings.IndexOf | lib/utils.ts:28 | The result is the first position where the pattern occurs, or none when it occurs nowhere. |
| Strings.RemoveFirst | lib/utils.ts:28 | `replace(pat, '')` with no occurrence returns the text unchanged. Otherwise the result is exactly one pattern-length shorter. |
| Strings.RemoveFirstOccurrence | lib/utils.ts:28 | The first occurrence goes wherever it stands, and the text on both sides of it is kept. |
| Strings.Join | lib/types.ts:71 | `join(sep)`: the length is the pieces' total length plus one separator between each two pieces, and the first piece comes first. |
| Strings.TrimAll | lib/types.ts:48 | `map(t => t.trim())`: same length, element i trimmed from input element i. |
| Strings.Contains | app/dashboard/page.tsx:87-89 | `includes(pat)` holds exactly when the pattern occurs at some position. |
| Strings.ParseDigits | app/dashboard/page.tsx:282 | `parseInt` of a non-empty digit string is zero exactly when every digit is '0'. |
| Strings.NatToString | lib/types.ts:43 | `bookmark_id.toString()` is a non-empty string of decimal digits without a leading zero. |
| Strings.ParseNatToString | app/dashboard/page.tsx:282 | `parseInt` of an id string produced by `toString` gives back the bookmark id. |
| Strings.NatToStringInjective | lib/types.ts:43 | Distinct bookmark ids give distinct UI ids. |
| BookmarkTypes.DecodeOptional | lib/types.ts:46-47 | A stored text field reads back as absent exactly when it holds "NA". Otherwise it reads back as itself. |
| BookmarkTypes.DecodeTagList | lib/types.ts:48 | Tag i is the trim of the i-th comma-separated piece. There is one tag per piece, empty pieces included, and every tag is trimmed and comma-free. |
| BookmarkTypes.DecodeTagListConcat | lib/types.ts:48 | The tags of two comma-joined fields are the tags of the first followed by those of the second. |
| BookmarkTypes.DecodeTagListOfPiece | lib/types.ts:48 | A comma-free field is one tag, its trimmed self, even when that is empty. With DecodeTagListConcat this fixes the tags of every field. |
| BookmarkTypes.DbToUi | lib/types.ts:41-52 | The id is the decimal string of `bookmark_id`, and url, owner and creation time are copied. A title "NA" becomes "Untitled"; any other title is copied. Description, favicon and tags are absent exactly when stored as exactly "NA"; otherwise description and favicon are copied, and the tags are the field's decoded tag list. A field such as " NA" is not the placeholder, so its tag list is ["NA"]. |
| BookmarkTypes.OrPlaceholder | lib/types.ts:68-70 | `value \|\| 'NA'`: the field is never empty. It is the value when the value is present and non-empty, and "NA" otherwise. |
| BookmarkTypes.EncodeTagList | lib/types.ts:71 | Absent or empty tags are stored as "NA". Otherwise the tags are joined by ", ". |
| BookmarkTypes.CreateBookmarkInsert | lib/types.ts:55-81 | Owner and url are copied as given. Title, description and favicon go through `value \|\| 'NA'`, so they are never empty: an empty title is stored as "NA". The tags column is the tag-list encoding, which is "" for the tag list [""]. The flags start false and the click count at 0. Folder is "General" and visibility "private". Both timestamps are the clock reading. |
| BookmarkTypes.TagsRoundTrip | lib/types.ts:48-71 | Clean tags stored and read back are the same tags. The exceptions are absent or empty tags and the single tag "NA", which read back absent. |
| BookmarkTypes.TagWithCommaSplits | lib/types.ts:48-71 | A tag `a,b` (halves comma-free) is stored as it is and reads back as the two tags `Trim(a)` and `Trim(b)`. |
| BookmarkTypes.InsertThenDecode | lib/types.ts:41-81 | For trimmed, comma-free tags, an inserted bookmark read back from its stored row has its id, url, owner and time. Its title, description, favicon and tags come back unchanged except where the "NA" encoding loses them (empty or "NA" values). |
| Utils.IsValidUrl | lib/utils.ts:16-23 | `isValidUrl`: true exactly when the URL constructor accepts the text (the parser yields a hostname). |
| Utils.ExtractDomain | lib/utils.ts:25-32 | The domain is "" when the URL does not parse. Otherwise it is the hostname unchanged when it has no "www.", and four characters shorter when it has one. It is never longer than the hostname. |
| Utils.ExtractDomainRemovesFirstWww | lib/utils.ts:28 | The first "www." is removed wherever it occurs in the hostname, and the text on both sides is kept. |
| Utils.GetFaviconUrl | lib/utils.ts:34-37 | The address is the service prefix, then the domain, then "&sz=128". An unparseable URL gives the address with an empty domain. |
| Utils.FaviconUrlCarriesDomain | lib/utils.ts:36 | The domain can be read back out of the favicon address. |
| AddBookmarkModal.ParseTags | components/AddBookmarkModal.tsx:43-46 | Every parsed tag is non-empty, trimmed and comma-free. |
| AddBookmarkModal.ParseTagsConcat | components/AddBookmarkModal.tsx:43-46 | The tags of two comma-joined texts are the tags of the first followed by those of the second. |
| AddBookmarkModal.ParseTagsOfPiece | components/AddBookmarkModal.tsx:43-46 | A comma-free text yields its trimmed self, or no tag when it is blank. |
| AddBookmarkModal.ParseTagsOfJoin | components/AddBookmarkModal.tsx:43-46 | Clean tags typed back joined by a comma plus whitespace parse to the same tags. |
| AddBookmarkModal.Validate | components/AddBookmarkModal.tsx:24-53 | The checks run in a fixed order, and the first failure decides the message: blank title, then blank URL, then an unparseable URL. The result is Ok exactly when all three pass. The bookmark then has the trimmed title and URL. The description is present only when non-blank, and it is trimmed. The tags are present only when some tag survives parsing. |
| AddBookmarkModal.ModalForm.constructor | components/AddBookmarkModal.tsx:18-22 | All four fields and the error start empty. |
| AddBookmarkModal.ModalForm.Submit | components/AddBookmarkModal.tsx:24-61 | On a failed check, the message is shown, the fields are kept and nothing is handed on. On success, the validated bookmark is handed on and every field and the error are cleared. |
| Dashboard.HasId | app/dashboard/page.tsx:139 | `some(b => b.id === id)` holds exactly when at least one entry carries the id. |
| Dashboard.CountIdOfDistinct | app/dashboard/page.tsx:138-142 | In a list with distinct ids, an id occurs once or not at all. |
| Dashboard.PrependIfAbsent | app/dashboard/page.tsx:137-145 | An id already listed leaves the list unchanged. Otherwise the bookmark goes first, ahead of the old list. Either way the id is then listed, and distinct ids stay distinct. |
| Dashboard.RemoveId | app/dashboard/page.tsx:152 | Afterwards the id is not listed. An entry stays exactly when it was listed with another id. An absent id changes nothing, and distinct ids stay distinct. |
| Dashboard.RemoveIdConcat | app/dashboard/page.tsx:167 | Removal is entry by entry, so the remaining entries keep their order. |
| Dashboard.ReplaceId | app/dashboard/page.tsx:156-162 | The length stays the same, and each entry with the id is replaced where it stands. A replacement with the same id keeps every position's id. An absent id changes nothing. |
| Dashboard.ApplyEvent | app/dashboard/page.tsx:134-168 | Every change event keeps ids distinct and adds at most one entry. |
| Dashboard.InsertEventPrepends | app/dashboard/page.tsx:134-145 | An insert event for a listed id is ignored. Otherwise the new bookmark is first and the old list follows unchanged. |
| Dashboard.SoftDeleteUpdateRemoves | app/dashboard/page.tsx:146-152 | An update marking the row deleted removes its id and keeps everything else in order. An absent id changes nothing. |
| Dashboard.UpdateReplacesInPlace | app/dashboard/page.tsx:153-162 | Any other update keeps the length and every position's id. It replaces the matching entries with the decoded row and changes nothing else. |
| Dashboard.DeleteEventRemoves | app/dashboard/page.tsx:164-167 | A delete event removes the old row's id. An absent id changes nothing. |
| Dashboard.ApplyEventIdempotent | app/dashboard/page.tsx:134-168 | Receiving any change event twice has the same effect as receiving it once. |
| Dashboard.AddAndInsertEventAgree | app/dashboard/page.tsx:253-260 | On a list whose ids are distinct, a successful add and the insert event for the same row give the same list in either order. That list holds the row exactly once. |
| Dashboard.ApplyStep | app/dashboard/page.tsx:134-293 | One step of the page's list: a realtime event (lines 134-168), a successful add (lines 255-260) or a successful delete (line 293); each keeps ids distinct. |
| Dashboard.RunKeepsIdsDistinct | app/dashboard/page.tsx:134-293 | Starting from a list with distinct ids (every load of rows with distinct keys gives one, `LoadedIdsDistinct`), no interleaving of realtime events (lines 134-168), successful adds (lines 255-260) and successful deletes (line 293) lists an id twice. |
| Dashboard.DbToUiAll | app/dashboard/page.tsx:109-115 | The loaded list has one bookmark per row, in row order. |
| Dashboard.LoadedIdsDistinct | app/dashboard/page.tsx:110 | Rows with distinct keys load into a list with distinct ids. |
| Dashboard.FetchErrorMessage | app/dashboard/page.tsx:84-94 | The message is chosen in a fixed order. No message gives the generic text, exactly. "does not exist" or "relation" gives the missing-table text, exactly. Otherwise "permission" or "denied" gives the permission text, exactly. Anything else gives "Error: " plus the message. |
| Dashboard.WellFormedEntryReadsBack | app/dashboard/page.tsx:212-225 | A bookmark the form can produce, sent with a real favicon address, reads back unchanged except where a value equals "NA". |
| Dashboard.SubmittedBookmarkReadsBack | app/dashboard/page.tsx:203-260 | A bookmark the form accepted, inserted with its URL's favicon address and read back from the stored row, is the form's bookmark with that favicon. Only a title, description or single tag equal to "NA" is lost. |
| Dashboard.DashboardPage.constructor | app/dashboard/page.tsx:21-25 | The page starts with no user, an empty list, loading on, no error and no pending timer. |
| Dashboard.DashboardPage.Initialize | app/dashboard/page.tsx:36-191 | Without a session the page goes to login and nothing else changes. With one, the user is remembered. A successful load lists the decoded rows, with distinct ids when the rows have distinct keys. A failed load empties the list and shows the classified message. An exception goes to login. Loading ends in every case. |
| Dashboard.DashboardPage.ErrorTimerFires | app/dashboard/page.tsx:241-297 | A timer can fire only when an add or delete error path has started one that has not fired. It clears the message and is used up. The load-failure message starts no timer. |
| Dashboard.DashboardPage.ReceiveEvent | app/dashboard/page.tsx:131-169 | The list becomes the event applied to it, and distinct ids stay distinct. |
| Dashboard.DashboardPage.AddBookmark | app/dashboard/page.tsx:203-267 | Without a user nothing is sent or changed. Otherwise the insert built for the user carries the URL's favicon address. A returned row is listed unless its id is already there. A duplicate-key error ("23505") shows "This URL is already bookmarked!". Any other error, or an exception, shows "Failed to add bookmark". Ids stay distinct. Each error path starts one clear-message timer; no other path starts one. |
| Dashboard.DashboardPage.DeleteBookmark | app/dashboard/page.tsx:269-299 | Without a user nothing changes. The id leaves the list only when the backend accepts the soft delete. Otherwise the list is kept, "Failed to delete bookmark" is shown and a clear-message timer starts. Ids stay distinct. |

## Left out

- URL parsing (`new URL`) is platform code. It is the parameter `HostParser`, which gives the hostname or nothing, so every property holds for every parser.
- The clock (`Date.now() / 1000`) is the parameter `now`.
- Converting `created_at` to an ISO-8601 string is not modelled. The UI bookmark keeps the seconds value.
- The backend calls are inputs to the methods: the session lookup, the select, insert and update requests, and their answers. The realtime subscription is one too: its setup, status callbacks, removal on unmount and channel name are not modelled.
- Only the ordering the server applies (`created_at` descending) would keep the list sorted. The model takes the rows in the order they are returned and does not state sortedness.
- Console logging and the environment audit are not modelled.
- Rendering is not modelled. This covers the loading screen, the empty state, the bookmark list and the modal's `isOpen` and `onClose`, as well as the input fields' change handlers.
- Dashboard.DashboardPage.DeleteBookmark: does not return the update request it sends. That request carries `parseInt(id)` and the clock reading. `parseInt` is modelled only on non-empty digit strings (`Strings.ParseDigits`), which is what every listed id is; its NaN and prefix results on other text are not modelled.
- Dashboard.DashboardPage.Initialize: a query that succeeds with no data is modelled as an empty list of rows.
- Dashboard.DashboardPage.ErrorTimerFires: the three-second delay itself is not modelled. Timers are counted but not ordered, and a timer that fires after a newer message replaced the old one clears the newer one, as in the code. So a load error that follows an add or delete error can be cleared by that error's timer; a load error on its own never is.
- Bookmark ids are unbounded natural numbers. JavaScript numbers lose precision above 2^53, and the model does not capture that.
- Strings are sequences of code points. JavaScript counts UTF-16 code units, which matters only for lengths, and no property here depends on one beyond the ASCII constants.
- `String.prototype.replace` is only ever called with the literal pattern "www." and an empty replacement, so replacement patterns (`$&` and the like) are not modelled.
