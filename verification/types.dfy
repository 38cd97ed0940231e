/** The database row, the UI bookmark, and the two conversions between them
    (lib/types.ts). The table stores the literal placeholder "NA" where a
    field has no value; the UI side uses real absence instead. */
module BookmarkTypes {
  import opened Results
  import opened Strings

  /** What the table stores for "no value". */
  const Placeholder := "NA"
  /** What the UI shows for a title stored as the placeholder. */
  const UntitledTitle := "Untitled"
  const DefaultFolder := "General"
  const DefaultVisibility := "private"

  /** A row of the bookmark table. Timestamps are seconds since the epoch. */
  datatype DbBookmark = DbBookmark(
    bookmarkId: nat,
    userId: string,
    url: string,
    title: string,
    description: string,
    faviconUrl: string,
    isFavorite: bool,
    isArchived: bool,
    isDeleted: bool,
    clickCount: int,
    folderName: string,
    tags: string,
    visibility: string,
    createdAt: real,
    updatedAt: real)

  /** The bookmark the dashboard lists. `createdAt` is the instant the source
      renders as an ISO-8601 string. */
  datatype Bookmark = Bookmark(
    id: string,
    title: string,
    url: string,
    description: Option<string>,
    favicon: Option<string>,
    tags: Option<seq<string>>,
    createdAt: real,
    userId: string)

  /** The object sent to the table on insert: a row without its id, which
      the table assigns. */
  datatype BookmarkInsert = BookmarkInsert(
    userId: string,
    url: string,
    title: string,
    description: string,
    faviconUrl: string,
    tags: string,
    isFavorite: bool,
    isArchived: bool,
    isDeleted: bool,
    clickCount: int,
    folderName: string,
    visibility: string,
    createdAt: real,
    updatedAt: real)

  // ---------------------------------------------------------------- row -> UI

  /** A stored text field read back: the placeholder means "absent". */
  function DecodeOptional(field: string): (r: Option<string>)
    ensures r.None? <==> field == Placeholder
    ensures r.Some? ==> r.value == field
  {
    if field != Placeholder then Some(field) else None
  }

  /** `tags.split(',').map(t => t.trim())`: empty pieces are kept. */
  function DecodeTagList(field: string): (tags: seq<string>)
    ensures |tags| == |Split(field, ',')| == CountChar(field, ',') + 1
    ensures forall i :: 0 <= i < |tags| ==> tags[i] == Trim(Split(field, ',')[i])
    ensures forall i :: 0 <= i < |tags| ==> IsTrimmed(tags[i]) && ',' !in tags[i]
  {
    var pieces := Split(field, ',');
    var tags := TrimAll(pieces);
    TrimmedPiecesClean(pieces);
    tags
  }

  /** The tags of two comma-joined fields are the tags of the first followed
      by those of the second. */
  lemma DecodeTagListConcat(a: string, b: string)
    ensures DecodeTagList(a + "," + b) == DecodeTagList(a) + DecodeTagList(b)
  {
    assert a + "," + b == a + [','] + b;
    SplitConcat(a, b, ',');
    TrimAllConcat(Split(a, ','), Split(b, ','));
  }

  /** A comma-free field is one tag, its trimmed self, even when that is
      empty. With DecodeTagListConcat this determines DecodeTagList. */
  lemma DecodeTagListOfPiece(s: string)
    requires ',' !in s
    ensures DecodeTagList(s) == [Trim(s)]
  {
    SplitWithoutSeparator(s, ',');
  }

  /** `dbToUiBookmark`: the title, description and favicon are never the
      placeholder (a tag can be: "NA,x" decodes to ["NA", "x"]); the tags are
      the field's decoded tag list. */
  function DbToUi(db: DbBookmark): (b: Bookmark)
    ensures b.id == NatToString(db.bookmarkId)
    ensures b.url == db.url && b.userId == db.userId && b.createdAt == db.createdAt
    ensures b.title != Placeholder
    ensures db.title != Placeholder ==> b.title == db.title
    ensures db.title == Placeholder ==> b.title == UntitledTitle
    ensures b.description.None? <==> db.description == Placeholder
    ensures b.description.Some? ==> b.description.value == db.description
    ensures b.favicon.None? <==> db.faviconUrl == Placeholder
    ensures b.favicon.Some? ==> b.favicon.value == db.faviconUrl
    ensures b.tags.None? <==> db.tags == Placeholder
    ensures b.tags.Some? ==> b.tags.value == DecodeTagList(db.tags)
  {
    Bookmark(
      id := NatToString(db.bookmarkId),
      title := if db.title != Placeholder then db.title else UntitledTitle,
      url := db.url,
      description := DecodeOptional(db.description),
      favicon := DecodeOptional(db.faviconUrl),
      tags := if db.tags != Placeholder then Some(DecodeTagList(db.tags)) else None,
      createdAt := db.createdAt,
      userId := db.userId)
  }

  // ---------------------------------------------------------------- UI -> row

  /** `value || 'NA'`: an absent or empty value is stored as the placeholder. */
  function OrPlaceholder(value: Option<string>): (field: string)
    ensures field != ""
    ensures value.Some? && value.value != "" ==> field == value.value
    ensures value.None? || value.value == "" ==> field == Placeholder
  {
    if value.Some? && value.value != "" then value.value else Placeholder
  }

  /** `tags && tags.length > 0 ? tags.join(', ') : 'NA'` */
  function EncodeTagList(tags: Option<seq<string>>): (field: string)
    ensures tags.None? || tags.value == [] ==> field == Placeholder
    ensures tags.Some? && tags.value != [] ==> field == Join(tags.value, ", ")
  {
    if tags.Some? && |tags.value| > 0 then Join(tags.value, ", ") else Placeholder
  }

  /** `createBookmarkInsert`: every text column gets a value (the placeholder
      when there is none), and the flags, counters, folder, visibility and
      both timestamps get their defaults. `now` is the clock reading. */
  function CreateBookmarkInsert(userId: string, url: string, title: string,
                                description: Option<string>, faviconUrl: Option<string>,
                                tags: Option<seq<string>>, now: real): (row: BookmarkInsert)
    ensures row.userId == userId && row.url == url
    ensures row.title != "" && row.description != "" && row.faviconUrl != ""
    ensures row.title == OrPlaceholder(Some(title))
    ensures row.description == OrPlaceholder(description)
    ensures row.faviconUrl == OrPlaceholder(faviconUrl)
    ensures row.tags == EncodeTagList(tags)
    ensures !row.isFavorite && !row.isArchived && !row.isDeleted && row.clickCount == 0
    ensures row.folderName == DefaultFolder && row.visibility == DefaultVisibility
    ensures row.createdAt == now && row.updatedAt == row.createdAt
  {
    BookmarkInsert(
      userId := userId,
      url := url,
      title := OrPlaceholder(Some(title)),
      description := OrPlaceholder(description),
      faviconUrl := OrPlaceholder(faviconUrl),
      tags := EncodeTagList(tags),
      isFavorite := false,
      isArchived := false,
      isDeleted := false,
      clickCount := 0,
      folderName := DefaultFolder,
      visibility := DefaultVisibility,
      createdAt := now,
      updatedAt := now)
  }

  /** The row the table holds, and hands back, after accepting an insert
      and assigning it the id `id`. */
  function StoredRow(ins: BookmarkInsert, id: nat): DbBookmark {
    DbBookmark(id, ins.userId, ins.url, ins.title, ins.description, ins.faviconUrl,
               ins.isFavorite, ins.isArchived, ins.isDeleted, ins.clickCount,
               ins.folderName, ins.tags, ins.visibility, ins.createdAt, ins.updatedAt)
  }

  // ---------------------------------------------------------------- round trip

  /** Text that `OrPlaceholder` stores and `DecodeOptional` reads back:
      absence, the empty string and the placeholder itself all come back absent. */
  function Restored(value: Option<string>): Option<string> {
    if value.None? || value.value == "" || value.value == Placeholder then None else value
  }

  /** A tag list made of trimmed, comma-free tags, as the add form produces. */
  predicate CleanTags(tags: seq<string>) {
    forall i :: 0 <= i < |tags| ==> IsTrimmed(tags[i]) && ',' !in tags[i]
  }

  /** Trimming comma-free pieces gives a clean tag list. */
  lemma TrimmedPiecesClean(pieces: seq<string>)
    requires forall i :: 0 <= i < |pieces| ==> ',' !in pieces[i]
    ensures CleanTags(TrimAll(pieces))
  {
    forall i | 0 <= i < |pieces| ensures ',' !in Trim(pieces[i]) {
      TrimKeepsAbsent(pieces[i], ',');
    }
  }

  /** Reading back the joined tags: the join of two or more tags has a comma,
      so only the single tag "NA" collides with the placeholder. */
  lemma TagsRoundTrip(tags: Option<seq<string>>)
    requires tags.Some? ==> CleanTags(tags.value)
    ensures var field := EncodeTagList(tags);
      (if field != Placeholder then Some(DecodeTagList(field)) else None)
      == (if tags.None? || tags.value == [] || tags.value == [Placeholder] then None else tags)
  {
    if tags.Some? && tags.value != [] {
      var t := tags.value;
      var field := Join(t, ", ");
      if |t| >= 2 {
        assert field == t[0] + ", " + Join(t[1..], ", ");
        assert field[|t[0]|] == ',';
        assert field != Placeholder;
      } else {
        assert field == t[0];
      }
      if field != Placeholder {
        assert ", " == [','] + " ";
        TrimSplitJoinPadded(t, ',', " ");
      }
    }
  }

  /** A tag that is not clean does not survive: a tag holding a comma is
      stored as it is and comes back split at the comma, each half trimmed. */
  lemma TagWithCommaSplits(a: string, b: string)
    requires ',' !in a && ',' !in b
    ensures EncodeTagList(Some([a + "," + b])) != Placeholder
    ensures DecodeTagList(EncodeTagList(Some([a + "," + b]))) == [Trim(a), Trim(b)]
  {
    var field := a + "," + b;
    SingleTagStoredAsIs(field);
    assert field != Placeholder by {
      assert field[|a|] == ',';
    }
    DecodeTwoPieces(a, b);
  }

  lemma SingleTagStoredAsIs(tag: string)
    ensures EncodeTagList(Some([tag])) == tag
  {
    assert Join([tag], ", ") == tag;
  }

  lemma DecodeTwoPieces(a: string, b: string)
    requires ',' !in a && ',' !in b
    ensures DecodeTagList(a + "," + b) == [Trim(a), Trim(b)]
  {
    DecodeTagListConcat(a, b);
    DecodeTagListOfPiece(a);
    DecodeTagListOfPiece(b);
  }

  /** For trimmed, comma-free tags, inserting a bookmark and reading the
      stored row back gives the same bookmark, except where the placeholder
      encoding loses information:
      an empty or "NA" title reads back as "Untitled", an empty or "NA"
      description or favicon as absent, and a tag list that is empty or is
      exactly ["NA"] as absent. */
  lemma {:induction false} InsertThenDecode(userId: string, url: string, title: string,
                                            description: Option<string>, faviconUrl: Option<string>,
                                            tags: Option<seq<string>>, now: real, id: nat)
    requires tags.Some? ==> CleanTags(tags.value)
    ensures var b := DbToUi(StoredRow(CreateBookmarkInsert(userId, url, title, description, faviconUrl, tags, now), id));
      && b.id == NatToString(id)
      && b.url == url
      && b.userId == userId
      && b.createdAt == now
      && b.title == (if title == "" || title == Placeholder then UntitledTitle else title)
      && b.description == Restored(description)
      && b.favicon == Restored(faviconUrl)
      && b.tags == (if tags.None? || tags.value == [] || tags.value == [Placeholder] then None else tags)
  {
    TagsRoundTrip(tags);
  }
}
