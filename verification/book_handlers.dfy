/** cmd/api/books.go: the create handler's validation of a book body
    (rule table, tag-to-message switch, first-wins error map), the
    publication-date rule, and the id guard of the detail handler. */
module BookHandlers {
  import opened Common
  import opened Text
  import opened ErrorMaps
  import opened Validator

  /** The body `bookCreate` decodes. `genres` is None when the body has no
      list (a nil slice) and Some of the list otherwise. */
  datatype BookInput = BookInput(title: string, published: int, pages: int, genres: Option<seq<string>>)

  /** `validateDate`, the `publication_date` tag: a year from 1430 up to
      the current year, both included. */
  function ValidateDate(year: int, currentYear: int): (ok: bool)
    ensures ok <==> 1430 <= year <= currentYear
  {
    if year > currentYear then false
    else if year < 1430 then false
    else true
  }

  /** The `unique` tag on a list. */
  predicate NoDuplicates(s: seq<string>)
  {
    forall i, j :: 0 <= i < j < |s| ==> s[i] != s[j]
  }

  function GenreList(input: BookInput): seq<string>
  {
    if input.genres.Some? then input.genres.value else []
  }

  /** `required,max=56` on Title (`required`: a non-empty string). */
  function TitleRules(input: BookInput): seq<Rule>
  {
    [Rule("required", "", input.title != ""), Rule("max", "56", |input.title| <= 56)]
  }

  /** `required,publication_date` on Published (`required`: non-zero). */
  function PublishedRules(input: BookInput, currentYear: int): seq<Rule>
  {
    [Rule("required", "", input.published != 0), Rule("publication_date", "", ValidateDate(input.published, currentYear))]
  }

  /** `required,gt=0` on Pages. */
  function PagesRules(input: BookInput): seq<Rule>
  {
    [Rule("required", "", input.pages != 0), Rule("gt", "0", input.pages > 0)]
  }

  /** `required,unique,gt=0,lt=6` on Genres (`required`: a non-nil list;
      `gt`/`lt` compare the number of entries). */
  function GenresRules(input: BookInput): seq<Rule>
  {
    var g := GenreList(input);
    [Rule("required", "", input.genres.Some?), Rule("unique", "", NoDuplicates(g)),
     Rule("gt", "0", |g| > 0), Rule("lt", "6", |g| < 6)]
  }

  /** The rule table of the body struct, fields in declaration order. */
  function BookRules(input: BookInput, currentYear: int): seq<FieldRules>
  {
    [ FieldRules("Title", TitleRules(input)),
      FieldRules("Published", PublishedRules(input, currentYear)),
      FieldRules("Pages", PagesRules(input)),
      FieldRules("Genres", GenresRules(input)) ]
  }

  /** The `switch e.Tag()` of `bookCreate`. */
  function BookMessage(currentYear: int, tag: string, param: string): (r: Option<string>)
    ensures r.Some? <==> tag == "required" || tag == "max" || tag == "gt" || tag == "lt" ||
                         tag == "publication_date" || tag == "unique"
    ensures tag == "required" || tag == "gt" ==> r == Some("must be provided")
    ensures tag == "max" ==> r == Some("above the character limit: " + param)
    ensures tag == "lt" ==> r == Some("must not exceed 5 items")
    ensures tag == "publication_date" ==>
              r == Some("publication date cannot exceed the range: 1430-" + IntToDecimal(currentYear))
    ensures tag == "unique" ==> r == Some("cannot contain duplicate genres")
  {
    if tag == "required" then Some("must be provided")
    else if tag == "max" then Some("above the character limit: " + param)
    else if tag == "gt" then Some("must be provided")
    else if tag == "lt" then Some("must not exceed 5 items")
    else if tag == "publication_date" then Some("publication date cannot exceed the range: 1430-" + IntToDecimal(currentYear))
    else if tag == "unique" then Some("cannot contain duplicate genres")
    else None
  }

  function BookMessages(currentYear: int): Messages
  {
    (tag, param) => BookMessage(currentYear, tag, param)
  }

  /** The error map `bookCreate` sends back. */
  function BookErrors(input: BookInput, currentYear: int): map<string, string>
  {
    Report(StructErrors(BookRules(input, currentYear)), BookMessages(currentYear))
  }

  /** A body every tag accepts. */
  predicate ValidBook(input: BookInput, currentYear: int)
  {
    && input.title != "" && |input.title| <= 56
    && input.published != 0 && 1430 <= input.published <= currentYear
    && input.pages > 0
    && input.genres.Some? && NoDuplicates(input.genres.value) && 0 < |input.genres.value| < 6
  }

  /** The message the title ends up with. */
  lemma TitleOutcome(input: BookInput, currentYear: int)
    ensures Outcome(BookRules(input, currentYear)[0], BookMessages(currentYear)) ==
              if input.title == "" then Some("must be provided")
              else if |input.title| > 56 then Some("above the character limit: " + "56")
              else None
    ensures Passes(BookRules(input, currentYear)[0]) <==> input.title != "" && |input.title| <= 56
  {
    var rules := TitleRules(input);
    FirstFailureOfTwo(rules[0], rules[1]);
  }

  /** The message the publication year ends up with. */
  lemma PublishedOutcome(input: BookInput, currentYear: int)
    ensures Outcome(BookRules(input, currentYear)[1], BookMessages(currentYear)) ==
              if input.published == 0 then Some("must be provided")
              else if !(1430 <= input.published <= currentYear)
              then Some("publication date cannot exceed the range: 1430-" + IntToDecimal(currentYear))
              else None
    ensures Passes(BookRules(input, currentYear)[1]) <==> input.published != 0 && 1430 <= input.published <= currentYear
  {
    var rules := PublishedRules(input, currentYear);
    FirstFailureOfTwo(rules[0], rules[1]);
  }

  /** The message the page count ends up with: zero fails `required`, a
      negative count fails `gt`, and both read "must be provided". */
  lemma PagesOutcome(input: BookInput, currentYear: int)
    ensures Outcome(BookRules(input, currentYear)[2], BookMessages(currentYear)) ==
              if input.pages <= 0 then Some("must be provided") else None
    ensures Passes(BookRules(input, currentYear)[2]) <==> input.pages > 0
  {
    var rules := PagesRules(input);
    FirstFailureOfTwo(rules[0], rules[1]);
  }

  /** The message the genre list ends up with, tags tried in the order
      required, unique, gt, lt. */
  lemma GenresOutcome(input: BookInput, currentYear: int)
    ensures Outcome(BookRules(input, currentYear)[3], BookMessages(currentYear)) ==
              if input.genres.None? then Some("must be provided")
              else if !NoDuplicates(input.genres.value) then Some("cannot contain duplicate genres")
              else if |input.genres.value| == 0 then Some("must be provided")
              else if |input.genres.value| >= 6 then Some("must not exceed 5 items")
              else None
    ensures Passes(BookRules(input, currentYear)[3]) <==>
              input.genres.Some? && NoDuplicates(input.genres.value) && 0 < |input.genres.value| < 6
  {
    FirstFailureOfFour(GenresRules(input));
    assert input.genres.Some? ==> GenreList(input) == input.genres.value;
  }

  /** Each of the four fields is looked up under its lower-cased name. */
  lemma BookReport(input: BookInput, currentYear: int)
    ensures Lookup(BookErrors(input, currentYear), "title") == Outcome(BookRules(input, currentYear)[0], BookMessages(currentYear))
    ensures Lookup(BookErrors(input, currentYear), "published") == Outcome(BookRules(input, currentYear)[1], BookMessages(currentYear))
    ensures Lookup(BookErrors(input, currentYear), "pages") == Outcome(BookRules(input, currentYear)[2], BookMessages(currentYear))
    ensures Lookup(BookErrors(input, currentYear), "genres") == Outcome(BookRules(input, currentYear)[3], BookMessages(currentYear))
    ensures BookErrors(input, currentYear).Keys <= {"title", "published", "pages", "genres"}
  {
    BookKeys(input, currentYear);
    ReportOfFour(BookRules(input, currentYear), BookMessages(currentYear));
  }

  /** The keys the body fields are reported under. */
  lemma BookKeys(input: BookInput, currentYear: int)
    ensures ToLower(BookRules(input, currentYear)[0].field) == "title"
    ensures ToLower(BookRules(input, currentYear)[1].field) == "published"
    ensures ToLower(BookRules(input, currentYear)[2].field) == "pages"
    ensures ToLower(BookRules(input, currentYear)[3].field) == "genres"
  {
    assert ToLower("Title") == "title" && ToLower("Published") == "published";
    assert ToLower("Pages") == "pages" && ToLower("Genres") == "genres";
  }

  /** A missing title is "must be provided"; one over 56 characters is
      "above the character limit: 56". */
  lemma TitleError(input: BookInput, currentYear: int)
    ensures Lookup(BookErrors(input, currentYear), "title") ==
              if input.title == "" then Some("must be provided")
              else if |input.title| > 56 then Some("above the character limit: " + "56")
              else None
  {
    BookReport(input, currentYear);
    TitleOutcome(input, currentYear);
  }

  /** A zero year is "must be provided"; any other year outside
      1430..currentYear names the range. */
  lemma PublishedError(input: BookInput, currentYear: int)
    ensures Lookup(BookErrors(input, currentYear), "published") ==
              if input.published == 0 then Some("must be provided")
              else if !(1430 <= input.published <= currentYear)
              then Some("publication date cannot exceed the range: 1430-" + IntToDecimal(currentYear))
              else None
  {
    BookReport(input, currentYear);
    PublishedOutcome(input, currentYear);
  }

  /** A zero or negative page count is "must be provided". */
  lemma PagesError(input: BookInput, currentYear: int)
    ensures Lookup(BookErrors(input, currentYear), "pages") ==
              if input.pages <= 0 then Some("must be provided") else None
  {
    BookReport(input, currentYear);
    PagesOutcome(input, currentYear);
  }

  /** A missing or empty genre list is "must be provided", a repeated genre
      "cannot contain duplicate genres" (checked first), six or more
      genres "must not exceed 5 items". */
  lemma GenresError(input: BookInput, currentYear: int)
    ensures Lookup(BookErrors(input, currentYear), "genres") ==
              if input.genres.None? then Some("must be provided")
              else if !NoDuplicates(input.genres.value) then Some("cannot contain duplicate genres")
              else if |input.genres.value| == 0 then Some("must be provided")
              else if |input.genres.value| >= 6 then Some("must not exceed 5 items")
              else None
  {
    BookReport(input, currentYear);
    GenresOutcome(input, currentYear);
  }

  /** The validator reports nothing exactly for a valid body. */
  lemma BookPassesIffValid(input: BookInput, currentYear: int)
    ensures StructErrors(BookRules(input, currentYear)) == [] <==> ValidBook(input, currentYear)
  {
    TitleOutcome(input, currentYear);
    PublishedOutcome(input, currentYear);
    PagesOutcome(input, currentYear);
    GenresOutcome(input, currentYear);
    var rules := BookRules(input, currentYear);
    assert (forall i :: 0 <= i < |rules| ==> Passes(rules[i])) <==>
           Passes(rules[0]) && Passes(rules[1]) && Passes(rules[2]) && Passes(rules[3]);
  }

  /** A valid body yields no message, and an invalid one at least one. */
  lemma BookErrorsEmptyIffValid(input: BookInput, currentYear: int)
    ensures BookErrors(input, currentYear) == map[] <==> ValidBook(input, currentYear)
  {
    BookPassesIffValid(input, currentYear);
    if !ValidBook(input, currentYear) {
      TitleError(input, currentYear);
      PublishedError(input, currentYear);
      PagesError(input, currentYear);
      GenresError(input, currentYear);
      assert "title" in BookErrors(input, currentYear) || "published" in BookErrors(input, currentYear)
          || "pages" in BookErrors(input, currentYear) || "genres" in BookErrors(input, currentYear);
    }
  }

  /** `JsonValidationError`. */
  class JsonValidationError {
    var errors: map<string, string>

    constructor ()
      ensures errors == map[]
    {
      errors := map[];
    }

    /** `AddError`: first message for a key wins. */
    method AddError(key: string, message: string)
      modifies this
      ensures errors == WithFirst(old(errors), key, message)
    {
      if key !in errors {
        errors := errors[key := message];
      }
    }
  }

  /** `bookCreate`: an undecodable body is a bad request; a body that breaks
      a rule is answered with the field messages; a valid body is accepted
      (and echoed). */
  method BookCreate(body: Option<BookInput>, currentYear: int) returns (r: Result<BookInput, ErrorResponse>)
    ensures body.None? ==> r == Err(BadRequest)
    ensures body.Some? && ValidBook(body.value, currentYear) ==> r == Ok(body.value)
    ensures body.Some? && !ValidBook(body.value, currentYear) ==>
              r == Err(FailedValidation(BookErrors(body.value, currentYear)))
  {
    if body.None? {
      return Err(BadRequest);
    }
    var input := body.value;
    var errs := StructErrors(BookRules(input, currentYear));
    if |errs| == 0 {
      BookPassesIffValid(input, currentYear);
      return Ok(input);
    }
    var errors := RecordErrors(errs, currentYear);
    assert !ValidBook(input, currentYear) by {
      BookPassesIffValid(input, currentYear);
    }
    r := Err(FailedValidation(errors));
  }

  /** `bookCreate`'s loop over the validator's errors: each one with a
      message is offered to `AddError` on a fresh `JsonValidationError`. */
  method RecordErrors(errs: seq<FieldError>, currentYear: int) returns (errors: map<string, string>)
    ensures errors == Report(errs, BookMessages(currentYear))
  {
    var jv := new JsonValidationError();
    var i := 0;
    while i < |errs|
      invariant 0 <= i <= |errs|
      invariant jv.errors == Report(errs[..i], BookMessages(currentYear))
    {
      var e := errs[i];
      ReportStep(errs, i, BookMessages(currentYear));
      var message := BookMessage(currentYear, e.tag, e.param);
      if message.Some? {
        jv.AddError(ToLower(e.field), message.value);
      }
      i := i + 1;
    }
    assert errs[..|errs|] == errs;
    errors := jv.errors;
  }

  /** `bookDetail`'s guard: an id that does not parse, or is below 1, is
      answered with not found; any other id is served. */
  function BookDetailId(parsedId: Option<int>): (r: Result<int, ErrorResponse>)
    ensures r.Ok? <==> parsedId.Some? && parsedId.value >= 1
    ensures r.Ok? ==> r.value == parsedId.value
    ensures r.Err? ==> r.error == NotFound
  {
    if parsedId.None? || parsedId.value < 1 then Err(NotFound) else Ok(parsedId.value)
  }
}
