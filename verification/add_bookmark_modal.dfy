/** The add-bookmark form (components/AddBookmarkModal.tsx): its submit
    handler checks the fields in a fixed order, parses the comma-separated
    tag text, hands the cleaned bookmark to the page and clears the form. */
module AddBookmarkModal {
  import opened Results
  import opened Strings
  import opened Utils
  import opened BookmarkTypes

  /** What the form hands to the page's `onAdd`. */
  datatype NewBookmark = NewBookmark(
    title: string,
    url: string,
    description: Option<string>,
    tags: Option<seq<string>>)

  const TitleRequired := "Title is required"
  const UrlRequired := "URL is required"
  const InvalidUrl := "Please enter a valid URL"

  /** `tags.split(',').map(t => t.trim()).filter(t => t.length > 0)` */
  function ParseTags(input: string): (tags: seq<string>)
    ensures CleanTagList(tags)
  {
    var pieces := Split(input, ',');
    TrimmedPiecesClean(pieces);
    DropEmptyKeepsClean(TrimAll(pieces));
    DropEmpty(TrimAll(pieces))
  }

  /** Dropping the empty tags of a clean list leaves a clean list. */
  lemma DropEmptyKeepsClean(xs: seq<string>)
    requires CleanTags(xs)
    ensures CleanTagList(DropEmpty(xs))
  {
    var r := DropEmpty(xs);
    forall i | 0 <= i < |r| ensures IsTrimmed(r[i]) && ',' !in r[i] {
      assert r[i] in xs;
      var j :| 0 <= j < |xs| && xs[j] == r[i];
    }
  }

  /** Tags keep the order of the text: the tags of two comma-joined texts
      are the tags of the first followed by those of the second. */
  lemma ParseTagsConcat(a: string, b: string)
    ensures ParseTags(a + "," + b) == ParseTags(a) + ParseTags(b)
  {
    assert a + "," + b == a + [','] + b;
    SplitConcat(a, b, ',');
    var pa, pb := Split(a, ','), Split(b, ',');
    TrimAllConcat(pa, pb);
    DropEmptyConcat(TrimAll(pa), TrimAll(pb));
  }

  /** A text without commas yields its trimmed self, or nothing when it is blank.
      With ParseTagsConcat this determines ParseTags on every text. */
  lemma ParseTagsOfPiece(s: string)
    requires ',' !in s
    ensures ParseTags(s) == if Trim(s) == "" then [] else [Trim(s)]
  {
    SplitWithoutSeparator(s, ',');
    assert TrimAll([s]) == [Trim(s)];
  }

  /** Tags typed back as they are stored (joined by a comma and optional
      blanks, as `createBookmarkInsert` joins them) parse to the same tags. */
  lemma ParseTagsOfJoin(tags: seq<string>, pad: string)
    requires CleanTagList(tags)
    requires AllWhitespace(pad) && ',' !in pad
    ensures ParseTags(Join(tags, "," + pad)) == tags
  {
    if tags == [] {
      assert Split("", ',') == [""];
      assert TrimAll([""]) == [""];
    } else {
      assert "," + pad == [','] + pad;
      TrimSplitJoinPadded(tags, ',', pad);
      DropEmptyOfNonEmpty(tags);
    }
  }

  /** Tags as the form produces them: non-empty, trimmed and comma-free. */
  predicate CleanTagList(tags: seq<string>) {
    CleanTags(tags) && forall i :: 0 <= i < |tags| ==> tags[i] != ""
  }

  /** A bookmark the form can hand on: trimmed non-empty title and URL, and
      optional parts present only when they have content. */
  predicate WellFormed(entry: NewBookmark) {
    && entry.title != "" && IsTrimmed(entry.title)
    && entry.url != "" && IsTrimmed(entry.url)
    && (entry.description.Some? ==> entry.description.value != "" && IsTrimmed(entry.description.value))
    && (entry.tags.Some? ==> entry.tags.value != [] && CleanTagList(entry.tags.value))
  }

  /** What a submit of the four fields produces: the first failed check, in
      the order title, URL present, URL parses; or the cleaned bookmark. */
  function Validate(parse: HostParser, title: string, url: string,
                    description: string, tags: string): (r: Result<NewBookmark, string>)
    ensures Trim(title) == "" ==> r == Err(TitleRequired)
    ensures Trim(title) != "" && Trim(url) == "" ==> r == Err(UrlRequired)
    ensures Trim(title) != "" && Trim(url) != "" && !IsValidUrl(parse, url) ==> r == Err(InvalidUrl)
    ensures r.Ok? <==> Trim(title) != "" && Trim(url) != "" && IsValidUrl(parse, url)
    ensures r.Ok? ==> WellFormed(r.value)
    ensures r.Ok? ==> r.value.title == Trim(title) && r.value.url == Trim(url)
    ensures r.Ok? ==> r.value.description == (if Trim(description) == "" then None else Some(Trim(description)))
    ensures r.Ok? ==> r.value.tags == (if ParseTags(tags) == [] then None else Some(ParseTags(tags)))
  {
    if Trim(title) == "" then Err(TitleRequired)
    else if Trim(url) == "" then Err(UrlRequired)
    else if !IsValidUrl(parse, url) then Err(InvalidUrl)
    else
      var parsed := ParseTags(tags);
      Ok(NewBookmark(
        title := Trim(title),
        url := Trim(url),
        description := if Trim(description) == "" then None else Some(Trim(description)),
        tags := if |parsed| > 0 then Some(parsed) else None))
  }

  /** The form's state: the four input fields and the error line. */
  class ModalForm {
    var title: string
    var url: string
    var description: string
    var tags: string
    var error: string

    constructor ()
      ensures title == "" && url == "" && description == "" && tags == "" && error == ""
    {
      title, url, description, tags, error := "", "", "", "", "";
    }

    /** `handleSubmit`: on a failed check, shows its message and keeps the
        fields; otherwise hands the bookmark on (`onAdd`, then `onClose`)
        and clears every field and the error. */
    method Submit(parse: HostParser) returns (submitted: Option<NewBookmark>)
      modifies this
      ensures var outcome := Validate(parse, old(title), old(url), old(description), old(tags));
        && (outcome.Err? ==>
              && submitted == None && error == outcome.error
              && title == old(title) && url == old(url)
              && description == old(description) && tags == old(tags))
        && (outcome.Ok? ==>
              && submitted == Some(outcome.value)
              && title == "" && url == "" && description == "" && tags == "" && error == "")
    {
      // The handler first clears the error; every branch writes it again.
      var outcome := Validate(parse, title, url, description, tags);
      submitted := Conclude(outcome);
    }

    /** The end of the handler, once the checks have run. */
    method Conclude(outcome: Result<NewBookmark, string>) returns (submitted: Option<NewBookmark>)
      modifies this
      ensures outcome.Err? ==>
                && submitted == None && error == outcome.error
                && title == old(title) && url == old(url)
                && description == old(description) && tags == old(tags)
      ensures outcome.Ok? ==>
                && submitted == Some(outcome.value)
                && title == "" && url == "" && description == "" && tags == "" && error == ""
    {
      match outcome
      case Err(message) =>
        error := message;
        submitted := None;
      case Ok(entry) =>
        submitted := Some(entry);
        title, url, description, tags, error := "", "", "", "", "";
    }
  }
}
