/** The dashboard page (app/dashboard/page.tsx): the list of the signed-in
    user's bookmarks, loaded once, then changed by realtime change events and
    by the results of the user's own add and delete requests. Every change
    is a pure function from the old list to the new one; the page object
    applies them one at a time. */
module Dashboard {
  import opened Results
  import opened Strings
  import opened BookmarkTypes
  import opened Utils
  import opened AddBookmarkModal

  const TableMissingMessage :=
    "Table \"sbookmarktbl\" not found. " + "Run: ALTER TABLE smartbookmark.sbookmarktbl SET SCHEMA public;"
  const PermissionMessage := "Permission denied. " + "Grant permissions to anon/authenticated roles."
  const LoadFailedMessage := "Failed to load bookmarks."
  const ErrorPrefix := "Error: "
  /** The database's unique-violation code. */
  const DuplicateKeyCode := "23505"
  const AlreadyBookmarkedMessage := "This URL is already bookmarked!"
  const AddFailedMessage := "Failed to add bookmark"
  const DeleteFailedMessage := "Failed to delete bookmark"

  /** A change the realtime channel pushes for one of the user's rows: the
      new row for an insert or update, the old row for a delete. */
  datatype ChangeEvent =
    | InsertEvent(row: DbBookmark)
    | UpdateEvent(row: DbBookmark)
    | DeleteEvent(oldRow: DbBookmark)

  /** The answer to the initial query: the rows (an absent list is []), an
      error with its message (an absent message is ""), or an exception. */
  datatype FetchResult = Fetched(rows: seq<DbBookmark>) | FetchFailed(message: string) | FetchThrew

  /** The answer to the insert request: the stored row (possibly absent),
      an error with its code, or an exception. */
  datatype InsertResponse = Inserted(data: Option<DbBookmark>) | InsertFailed(code: string) | InsertThrew

  /** The answer to the soft-delete request. */
  datatype DeleteResponse = Deleted | DeleteFailed | DeleteThrew

  // ---------------------------------------------------------------- the list

  /** `list.some(b => b.id === id)`: some entry carries the id. */
  predicate HasId(list: seq<Bookmark>, id: string): (listed: bool)
    ensures listed <==> CountId(list, id) > 0
  {
    CountPositiveIffListed(list, id);
    exists i :: 0 <= i < |list| && list[i].id == id
  }

  lemma {:induction false} CountPositiveIffListed(list: seq<Bookmark>, id: string)
    ensures CountId(list, id) > 0 <==> exists i :: 0 <= i < |list| && list[i].id == id
  {
    if list != [] {
      CountPositiveIffListed(list[1..], id);
      if list[0].id != id {
        assert (exists i :: 0 <= i < |list| && list[i].id == id) ==>
               (exists i :: 0 <= i < |list[1..]| && list[1..][i].id == id) by {
          forall i | 0 <= i < |list| && list[i].id == id ensures 0 <= i - 1 < |list[1..]| && list[1..][i - 1].id == id {
          }
        }
      }
    }
  }

  /** No two entries share an id. */
  predicate DistinctIds(list: seq<Bookmark>) {
    forall i, j :: 0 <= i < j < |list| ==> list[i].id != list[j].id
  }

  /** How many entries carry `id`. */
  function CountId(list: seq<Bookmark>, id: string): nat {
    if list == [] then 0 else (if list[0].id == id then 1 else 0) + CountId(list[1..], id)
  }

  /** In a list with distinct ids, an id occurs once or not at all. */
  lemma {:induction false} CountIdOfDistinct(list: seq<Bookmark>, id: string)
    requires DistinctIds(list)
    ensures CountId(list, id) == if HasId(list, id) then 1 else 0
  {
    if list != [] {
      CountIdOfDistinct(list[1..], id);
      if list[0].id == id {
        assert !HasId(list[1..], id);
      } else {
        assert HasId(list, id) ==> HasId(list[1..], id);
      }
    }
  }

  /** The updater used by the insert event and by a successful add: a
      bookmark whose id is already listed is dropped, otherwise it goes first. */
  function PrependIfAbsent(list: seq<Bookmark>, b: Bookmark): (r: seq<Bookmark>)
    ensures HasId(r, b.id)
    ensures HasId(list, b.id) ==> r == list
    ensures !HasId(list, b.id) ==> r == [b] + list
    ensures DistinctIds(list) ==> DistinctIds(r)
  {
    if HasId(list, b.id) then list
    else
      var r := [b] + list;
      assert r[0].id == b.id;
      assert forall i :: 1 <= i < |r| ==> r[i] == list[i - 1];
      r
  }

  /** `list.filter(b => b.id !== id)` */
  function RemoveId(list: seq<Bookmark>, id: string): (r: seq<Bookmark>)
    ensures |r| <= |list|
    ensures !HasId(r, id)
    ensures forall b :: b in r <==> b in list && b.id != id
    ensures !HasId(list, id) ==> r == list
    ensures DistinctIds(list) ==> DistinctIds(r)
  {
    if list == [] then []
    else if list[0].id == id then RemoveId(list[1..], id)
    else [list[0]] + RemoveId(list[1..], id)
  }

  /** Removal works entry by entry, so the entries that stay keep their
      relative order. */
  lemma {:induction false} RemoveIdConcat(a: seq<Bookmark>, b: seq<Bookmark>, id: string)
    ensures RemoveId(a + b, id) == RemoveId(a, id) + RemoveId(b, id)
  {
    if a == [] {
      assert a + b == b;
    } else {
      assert (a + b)[0] == a[0] && (a + b)[1..] == a[1..] + b;
      RemoveIdConcat(a[1..], b, id);
    }
  }

  /** `list.map(b => b.id === id ? replacement : b)` */
  function ReplaceId(list: seq<Bookmark>, id: string, replacement: Bookmark): (r: seq<Bookmark>)
    ensures |r| == |list|
    ensures forall i :: 0 <= i < |list| ==> r[i] == if list[i].id == id then replacement else list[i]
    ensures replacement.id == id ==> forall i :: 0 <= i < |list| ==> r[i].id == list[i].id
    ensures !HasId(list, id) ==> r == list
  {
    seq(|list|, i requires 0 <= i < |list| => if list[i].id == id then replacement else list[i])
  }

  /** The realtime handler: one change event applied to the list. */
  function ApplyEvent(list: seq<Bookmark>, e: ChangeEvent): (r: seq<Bookmark>)
    ensures DistinctIds(list) ==> DistinctIds(r)
    ensures |r| <= |list| + 1
  {
    match e
    case InsertEvent(row) => PrependIfAbsent(list, DbToUi(row))
    case UpdateEvent(row) =>
      if row.isDeleted then RemoveId(list, NatToString(row.bookmarkId))
      else ReplaceId(list, NatToString(row.bookmarkId), DbToUi(row))
    case DeleteEvent(oldRow) => RemoveId(list, NatToString(oldRow.bookmarkId))
  }

  /** An insert event is ignored when its id is listed; otherwise its
      bookmark is first and the old list follows unchanged. */
  lemma InsertEventPrepends(list: seq<Bookmark>, row: DbBookmark)
    ensures var id := NatToString(row.bookmarkId);
      && (HasId(list, id) ==> ApplyEvent(list, InsertEvent(row)) == list)
      && (!HasId(list, id) ==> ApplyEvent(list, InsertEvent(row)) == [DbToUi(row)] + list)
  {
  }

  /** An update that marks the row deleted takes every entry with its id
      out, keeps the rest in order, and changes nothing when the id is absent. */
  lemma SoftDeleteUpdateRemoves(list: seq<Bookmark>, row: DbBookmark)
    requires row.isDeleted
    ensures var id := NatToString(row.bookmarkId);
      var r := ApplyEvent(list, UpdateEvent(row));
      && r == RemoveId(list, id)
      && !HasId(r, id)
      && (forall b :: b in r <==> b in list && b.id != id)
      && (!HasId(list, id) ==> r == list)
  {
  }

  /** Any other update replaces the entries with its id where they stand:
      same length, same id at every position, and nothing else changes. */
  lemma UpdateReplacesInPlace(list: seq<Bookmark>, row: DbBookmark)
    requires !row.isDeleted
    ensures var id := NatToString(row.bookmarkId);
      var r := ApplyEvent(list, UpdateEvent(row));
      && |r| == |list|
      && (forall i :: 0 <= i < |list| ==> r[i].id == list[i].id)
      && (forall i :: 0 <= i < |list| ==> r[i] == if list[i].id == id then DbToUi(row) else list[i])
      && (!HasId(list, id) ==> r == list)
  {
  }

  /** A delete event takes out the id of the old row. */
  lemma DeleteEventRemoves(list: seq<Bookmark>, oldRow: DbBookmark)
    ensures var id := NatToString(oldRow.bookmarkId);
      var r := ApplyEvent(list, DeleteEvent(oldRow));
      && r == RemoveId(list, id)
      && !HasId(r, id)
      && (!HasId(list, id) ==> r == list)
  {
  }

  /** Every change event is idempotent: receiving it twice is receiving it once. */
  lemma ApplyEventIdempotent(list: seq<Bookmark>, e: ChangeEvent)
    ensures ApplyEvent(ApplyEvent(list, e), e) == ApplyEvent(list, e)
  {
    match e
    case UpdateEvent(row) =>
      if !row.isDeleted {
        var id, b := NatToString(row.bookmarkId), DbToUi(row);
        var once := ReplaceId(list, id, b);
        assert forall i :: 0 <= i < |once| ==> ReplaceId(once, id, b)[i] == once[i];
      }
    case _ =>
  }

  /** A successful add and the insert event for the same row, in either
      order, give the same list, with exactly one entry for the row. */
  lemma AddAndInsertEventAgree(list: seq<Bookmark>, row: DbBookmark)
    requires DistinctIds(list)
    ensures var b := DbToUi(row);
      var addFirst := ApplyEvent(PrependIfAbsent(list, b), InsertEvent(row));
      var eventFirst := PrependIfAbsent(ApplyEvent(list, InsertEvent(row)), b);
      && addFirst == eventFirst
      && addFirst == PrependIfAbsent(list, b)
      && CountId(addFirst, b.id) == 1
  {
    var b := DbToUi(row);
    var r := PrependIfAbsent(list, b);
    CountIdOfDistinct(r, b.id);
  }

  // ---------------------------------------------------------------- any interleaving

  /** One change to the list, from the channel or from a local request's result. */
  datatype Step =
    | Change(event: ChangeEvent)
    | AddSucceeded(row: DbBookmark)
    | DeleteSucceeded(id: string)

  function ApplyStep(list: seq<Bookmark>, step: Step): (r: seq<Bookmark>)
    ensures DistinctIds(list) ==> DistinctIds(r)
  {
    match step
    case Change(e) => ApplyEvent(list, e)
    case AddSucceeded(row) => PrependIfAbsent(list, DbToUi(row))
    case DeleteSucceeded(id) => RemoveId(list, id)
  }

  function Run(list: seq<Bookmark>, steps: seq<Step>): seq<Bookmark>
    decreases |steps|
  {
    if steps == [] then list else Run(ApplyStep(list, steps[0]), steps[1..])
  }

  /** Whatever order events and local results arrive in, no id is ever
      listed twice. */
  lemma {:induction false} RunKeepsIdsDistinct(list: seq<Bookmark>, steps: seq<Step>)
    requires DistinctIds(list)
    ensures DistinctIds(Run(list, steps))
    decreases |steps|
  {
    if steps != [] {
      RunKeepsIdsDistinct(ApplyStep(list, steps[0]), steps[1..]);
    }
  }

  // ---------------------------------------------------------------- loading

  /** `data.map(dbToUiBookmark)` */
  function DbToUiAll(rows: seq<DbBookmark>): (list: seq<Bookmark>)
    ensures |list| == |rows|
    ensures forall i :: 0 <= i < |rows| ==> list[i] == DbToUi(rows[i])
  {
    seq(|rows|, i requires 0 <= i < |rows| => DbToUi(rows[i]))
  }

  /** The table's key: no two rows share a bookmark id. */
  predicate DistinctRowIds(rows: seq<DbBookmark>) {
    forall i, j :: 0 <= i < j < |rows| ==> rows[i].bookmarkId != rows[j].bookmarkId
  }

  /** Rows with distinct keys give bookmarks with distinct ids, because the
      decimal string of a number determines it. */
  lemma LoadedIdsDistinct(rows: seq<DbBookmark>)
    requires DistinctRowIds(rows)
    ensures DistinctIds(DbToUiAll(rows))
  {
    var list := DbToUiAll(rows);
    forall i, j | 0 <= i < j < |list| ensures list[i].id != list[j].id {
      if list[i].id == list[j].id {
        NatToStringInjective(rows[i].bookmarkId, rows[j].bookmarkId);
      }
    }
  }

  /** The message shown when the initial query fails: the first matching
      rule among table missing, permission denied and the raw text, or the
      generic text when there is no message. */
  function FetchErrorMessage(message: string): (m: string)
    ensures m == LoadFailedMessage <==> message == ""
    ensures m == TableMissingMessage <==>
              message != "" && (Contains(message, "does not exist") || Contains(message, "relation"))
    ensures m == PermissionMessage <==>
              && message != ""
              && !Contains(message, "does not exist") && !Contains(message, "relation")
              && (Contains(message, "permission") || Contains(message, "denied"))
    ensures && message != ""
            && !Contains(message, "does not exist") && !Contains(message, "relation")
            && !Contains(message, "permission") && !Contains(message, "denied")
            ==> m == ErrorPrefix + message
  {
    if message == "" then LoadFailedMessage
    else if Contains(message, "does not exist") || Contains(message, "relation") then TableMissingMessage
    else if Contains(message, "permission") || Contains(message, "denied") then PermissionMessage
    else
      var raw := ErrorPrefix + message;
      assert raw[0] == 'E';
      assert raw != LoadFailedMessage && raw != TableMissingMessage && raw != PermissionMessage by {
        assert LoadFailedMessage[0] == 'F' && TableMissingMessage[0] == 'T' && PermissionMessage[0] == 'P';
      }
      raw
  }

  // ---------------------------------------------------------------- adding

  /** A bookmark the form hands on, sent with a real favicon address and
      read back: only a title, description or single tag equal to the
      placeholder "NA" is lost. */
  lemma {:induction false} WellFormedEntryReadsBack(entry: NewBookmark, favicon: string,
                                                    userId: string, now: real, id: nat)
    requires WellFormed(entry)
    requires favicon != "" && favicon != Placeholder
    ensures var sent := CreateBookmarkInsert(userId, entry.url, entry.title, entry.description,
                                             Some(favicon), entry.tags, now);
      DbToUi(StoredRow(sent, id)) == Bookmark(
        id := NatToString(id),
        title := if entry.title == Placeholder then UntitledTitle else entry.title,
        url := entry.url,
        description := if entry.description == Some(Placeholder) then None else entry.description,
        favicon := Some(favicon),
        tags := if entry.tags == Some([Placeholder]) then None else entry.tags,
        createdAt := now,
        userId := userId)
  {
    InsertThenDecode(userId, entry.url, entry.title, entry.description, Some(favicon), entry.tags, now, id);
  }

  /** What the page sends and then shows for a bookmark the form accepted:
      read back from the table, it is the form's bookmark with the favicon
      address of its URL filled in, except that a title or description "NA"
      and the single tag "NA" collide with the table's placeholder. */
  lemma SubmittedBookmarkReadsBack(parse: HostParser, title: string, url: string,
                                   description: string, tags: string,
                                   userId: string, now: real, id: nat)
    requires Validate(parse, title, url, description, tags).Ok?
    ensures var entry := Validate(parse, title, url, description, tags).value;
      var favicon := GetFaviconUrl(parse, entry.url);
      var sent := CreateBookmarkInsert(userId, entry.url, entry.title, entry.description,
                                       Some(favicon), entry.tags, now);
      DbToUi(StoredRow(sent, id)) == Bookmark(
        id := NatToString(id),
        title := if entry.title == Placeholder then UntitledTitle else entry.title,
        url := entry.url,
        description := if entry.description == Some(Placeholder) then None else entry.description,
        favicon := Some(favicon),
        tags := if entry.tags == Some([Placeholder]) then None else entry.tags,
        createdAt := now,
        userId := userId)
  {
    var entry := Validate(parse, title, url, description, tags).value;
    var favicon := GetFaviconUrl(parse, entry.url);
    assert favicon[..|FaviconServicePrefix|] == FaviconServicePrefix;
    assert favicon != "" && favicon != Placeholder;
    WellFormedEntryReadsBack(entry, favicon, userId, now, id);
  }

  // ---------------------------------------------------------------- the page

  /** The page's state. `user` is the signed-in user's id. */
  class DashboardPage {
    var user: Option<string>
    var bookmarks: seq<Bookmark>
    var loading: bool
    var error: string
    /** Clear-message timers started by the add and delete error paths and
        not yet fired. */
    var pendingTimers: nat

    constructor ()
      ensures user == None && bookmarks == [] && loading && error == "" && pendingTimers == 0
    {
      user, bookmarks, loading, error := None, [], true, "";
      pendingTimers := 0;
    }

    /** `initializeData`: without a session, go to the login page; otherwise
        remember the user and load the list, or empty it and show the
        classified message; an exception also leads to the login page.
        Loading ends in every case. */
    method Initialize(session: Option<string>, fetched: FetchResult) returns (toLogin: bool)
      modifies this
      ensures toLogin <==> session.None? || fetched.FetchThrew?
      ensures !loading
      ensures pendingTimers == old(pendingTimers)
      ensures session.None? ==> user == old(user) && bookmarks == old(bookmarks) && error == old(error)
      ensures session.Some? ==> user == session
      ensures session.Some? && fetched.Fetched? ==>
                bookmarks == DbToUiAll(fetched.rows) && error == old(error)
      ensures session.Some? && fetched.Fetched? && DistinctRowIds(fetched.rows) ==> DistinctIds(bookmarks)
      ensures session.Some? && fetched.FetchFailed? ==>
                bookmarks == [] && error == FetchErrorMessage(fetched.message)
      ensures session.Some? && fetched.FetchThrew? ==> bookmarks == old(bookmarks) && error == old(error)
    {
      if session.None? {
        loading := false;
        return true;
      }
      user := session;
      match fetched {
        case FetchFailed(message) =>
          error := FetchErrorMessage(message);
          bookmarks := [];
        case Fetched(rows) =>
          bookmarks := DbToUiAll(rows);
          if DistinctRowIds(rows) {
            LoadedIdsDistinct(rows);
          }
        case FetchThrew =>
      }
      loading := false;
      toLogin := fetched.FetchThrew?;
    }

    /** One of the timers the add and delete error paths start: three
        seconds later it clears the message. The load-failure message starts
        none, so it stays until another message replaces it. */
    method ErrorTimerFires()
      requires pendingTimers > 0
      modifies this`error, this`pendingTimers
      ensures error == ""
      ensures pendingTimers == old(pendingTimers) - 1
    {
      error := "";
      pendingTimers := pendingTimers - 1;
    }

    /** The realtime handler. */
    method ReceiveEvent(e: ChangeEvent)
      modifies this`bookmarks
      ensures bookmarks == ApplyEvent(old(bookmarks), e)
      ensures DistinctIds(old(bookmarks)) ==> DistinctIds(bookmarks)
    {
      bookmarks := ApplyEvent(bookmarks, e);
    }

    /** `handleAddBookmark`: builds the insert for the signed-in user with
        the favicon address of the URL and, given the table's answer, lists
        the stored row unless its id is already there, or shows the error.
        Returns the insert it sends (None when nobody is signed in). */
    method AddBookmark(parse: HostParser, entry: NewBookmark, now: real, response: InsertResponse)
      returns (request: Option<BookmarkInsert>)
      modifies this`bookmarks, this`error, this`pendingTimers
      ensures pendingTimers == old(pendingTimers) + if user.Some? && !response.Inserted? then 1 else 0
      ensures user.None? ==> request == None && bookmarks == old(bookmarks) && error == old(error)
      ensures user.Some? ==> request == Some(CreateBookmarkInsert(
                user.value, entry.url, entry.title, entry.description,
                Some(GetFaviconUrl(parse, entry.url)), entry.tags, now))
      ensures user.Some? && response.Inserted? ==>
                && error == old(error)
                && bookmarks == if response.data.Some?
                                then ApplyStep(old(bookmarks), AddSucceeded(response.data.value))
                                else old(bookmarks)
      ensures user.Some? && response.InsertFailed? ==>
                && bookmarks == old(bookmarks)
                && error == if response.code == DuplicateKeyCode then AlreadyBookmarkedMessage else AddFailedMessage
      ensures user.Some? && response.InsertThrew? ==> bookmarks == old(bookmarks) && error == AddFailedMessage
      ensures DistinctIds(old(bookmarks)) ==> DistinctIds(bookmarks)
    {
      if user.None? {
        return None;
      }
      var favicon := GetFaviconUrl(parse, entry.url);
      var insert := CreateBookmarkInsert(user.value, entry.url, entry.title, entry.description,
                                         Some(favicon), entry.tags, now);
      request := Some(insert);
      match response
      case InsertThrew =>
        error := AddFailedMessage;
        pendingTimers := pendingTimers + 1;
      case InsertFailed(code) =>
        error := if code == DuplicateKeyCode then AlreadyBookmarkedMessage else AddFailedMessage;
        pendingTimers := pendingTimers + 1;
      case Inserted(data) =>
        if data.Some? {
          bookmarks := PrependIfAbsent(bookmarks, DbToUi(data.value));
        }
    }

    /** `handleDeleteBookmark`: the entry leaves the list only once the
        table has accepted the soft delete; on an error or an exception
        the list stays as it was and the error is shown. */
    method DeleteBookmark(id: string, response: DeleteResponse)
      modifies this`bookmarks, this`error, this`pendingTimers
      ensures pendingTimers == old(pendingTimers) + if user.Some? && !response.Deleted? then 1 else 0
      ensures user.None? ==> bookmarks == old(bookmarks) && error == old(error)
      ensures user.Some? && response.Deleted? ==>
                bookmarks == ApplyStep(old(bookmarks), DeleteSucceeded(id)) && error == old(error)
      ensures user.Some? && !response.Deleted? ==>
                bookmarks == old(bookmarks) && error == DeleteFailedMessage
      ensures DistinctIds(old(bookmarks)) ==> DistinctIds(bookmarks)
    {
      if user.None? {
        return;
      }
      match response
      case Deleted =>
        bookmarks := RemoveId(bookmarks, id);
      case DeleteFailed =>
        error := DeleteFailedMessage;
        pendingTimers := pendingTimers + 1;
      case DeleteThrew =>
        error := DeleteFailedMessage;
        pendingTimers := pendingTimers + 1;
    }
  }
}
