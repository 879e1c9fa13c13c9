/** cmd/api/book_service.go: the application facade. It validates before it
    touches the store, merges partial updates, turns store errors into
    responses, and assembles the list filters from the query string. */
module BookService {
  import opened Common
  import opened Text
  import opened Models
  import opened InternalFilters
  import opened Repository

  /** The decoded create body (`createInput`). */
  datatype CreateBody = CreateBody(title: string, published: int, pages: int, genres: seq<string>)

  /** The decoded update body: None for a field the caller left out (a nil
      `*string` or `*int`, or a nil genre list). */
  datatype BookPatch = BookPatch(
    title: Option<string>,
    published: Option<int>,
    pages: Option<int>,
    genres: Option<seq<string>>)

  /** `Book.Validate`, whose implementation is not part of this model: the
      field-keyed messages for a book, empty when it is valid. */
  type Validate = Book -> map<string, string>

  /** The book `createBook` builds from the body: store-assigned fields zero. */
  function NewBook(body: CreateBody): (r: Book)
    ensures r.title == body.title && r.published == body.published
    ensures r.pages == body.pages && r.genres == body.genres
    ensures r.id == 0 && r.createdAt == 0 && r.version == 0
  {
    Book(0, body.title, 0, body.published, body.pages, body.genres, 0)
  }

  /** The `Location` header of a created book. */
  function Location(id: int): (r: string)
    ensures HasPrefix(r, "/v1/books/")
  {
    "/v1/books/" + IntToDecimal(id)
  }

  /** After the prefix, the header reads back as the book's id. */
  lemma LocationSuffix(id: nat)
    ensures DecimalValue(Location(id)[10..]) == id
  {
    assert Location(id)[10..] == NatToDecimal(id);
    DecimalRoundTrip(id);
  }

  /** The header names the created book: distinct ids, distinct headers. */
  lemma LocationIdentifiesBook(a: int, b: int)
    requires Location(a) == Location(b)
    ensures a == b
  {
    var prefix := "/v1/books/";
    assert Location(a)[|prefix|..] == IntToDecimal(a);
    assert Location(b)[|prefix|..] == IntToDecimal(b);
    IntToDecimalInjective(a, b);
  }

  /** Error dispatch after `Get` and `Delete`: not found for a missing
      record, a server error for anything else. */
  function LookupFailure(e: StoreError): (r: ErrorResponse)
    ensures r == NotFound <==> e == ErrRecordNotFound
    ensures r == NotFound || r == ServerError
  {
    if e == ErrRecordNotFound then NotFound else ServerError
  }

  /** Error dispatch after `Update`: an edit conflict for a stale version,
      a server error for anything else. */
  function UpdateFailure(e: StoreError): (r: ErrorResponse)
    ensures r == EditConflict <==> e == ErrEditConflict
    ensures r == EditConflict || r == ServerError
  {
    if e == ErrEditConflict then EditConflict else ServerError
  }

  /** The merge of `updateBook`: a field the patch carries is overwritten
      (an explicit empty genre list included), any other field is kept, and
      the id, creation instant and version are never touched. */
  function ApplyPatch(book: Book, patch: BookPatch): (r: Book)
    ensures r.id == book.id && r.createdAt == book.createdAt && r.version == book.version
    ensures r.title == (if patch.title.Some? then patch.title.value else book.title)
    ensures r.published == (if patch.published.Some? then patch.published.value else book.published)
    ensures r.pages == (if patch.pages.Some? then patch.pages.value else book.pages)
    ensures r.genres == (if patch.genres.Some? then patch.genres.value else book.genres)
  {
    book.(
      title := if patch.title.Some? then patch.title.value else book.title,
      published := if patch.published.Some? then patch.published.value else book.published,
      pages := if patch.pages.Some? then patch.pages.value else book.pages,
      genres := if patch.genres.Some? then patch.genres.value else book.genres)
  }

  /** Two patches in a row act as one, the later one winning per field. */
  function Then(first: BookPatch, second: BookPatch): BookPatch
  {
    BookPatch(
      if second.title.Some? then second.title else first.title,
      if second.published.Some? then second.published else first.published,
      if second.pages.Some? then second.pages else first.pages,
      if second.genres.Some? then second.genres else first.genres)
  }

  /** Applying a patch twice is applying it once, an empty patch changes
      nothing, and successive patches compose. */
  lemma PatchLaws(book: Book, p: BookPatch, q: BookPatch)
    ensures ApplyPatch(ApplyPatch(book, p), p) == ApplyPatch(book, p)
    ensures ApplyPatch(book, BookPatch(None, None, None, None)) == book
    ensures ApplyPatch(ApplyPatch(book, p), q) == ApplyPatch(book, Then(p, q))
  {
  }

  /** `createBook`. An undecodable body is a bad request; a book that fails
      validation is answered with its messages and the store is not called;
      otherwise the book is inserted once, a store failure is a server
      error, and a success returns the book with the fields the store
      assigned and the header naming it. */
  method CreateBook(store: BookStore, body: Option<CreateBody>, validate: Validate)
    returns (r: Result<(Book, string), ErrorResponse>)
    modifies store
    ensures body.None? ==> r == Err(BadRequest) && store.calls == old(store.calls)
    ensures body.Some? && validate(NewBook(body.value)) != map[] ==>
              && r == Err(FailedValidation(validate(NewBook(body.value))))
              && store.calls == old(store.calls)
    ensures body.Some? && validate(NewBook(body.value)) == map[] ==>
              && store.calls == old(store.calls) + [InsertCall(NewBook(body.value))]
              && match store.insertReply(old(store.calls), NewBook(body.value))
                 case Err(_) => r == Err(ServerError)
                 case Ok(a) => r == Ok((NewBook(body.value).(id := a.id, createdAt := a.createdAt, version := a.version),
                                        Location(a.id)))
    ensures r.Ok? ==> r.value.1 == Location(r.value.0.id)
  {
    if body.None? {
      return Err(BadRequest);
    }
    var book := NewBook(body.value);
    var validationErrors := validate(book);
    if |validationErrors| != 0 {
      return Err(FailedValidation(validationErrors));
    }
    var inserted := store.Insert(book);
    if inserted.Err? {
      return Err(ServerError);
    }
    book := book.(id := inserted.value.id, createdAt := inserted.value.createdAt, version := inserted.value.version);
    r := Ok((book, Location(book.id)));
  }

  /** `updateBook`. The book is fetched first (a missing one is not found);
      then the body is decoded and merged field by field; a merged book that
      fails validation is answered with its messages and `Update` is not
      called; otherwise `Update` runs once, a stale version is an edit
      conflict, and a success returns the merged book with its new version. */
  method UpdateBook(store: BookStore, id: int, body: Option<BookPatch>, validate: Validate)
    returns (r: Result<Book, ErrorResponse>)
    modifies store
    ensures var got := store.getReply(old(store.calls), id);
            var afterGet := old(store.calls) + [GetCall(id)];
            && (got.Err? ==> r == Err(LookupFailure(got.error)) && store.calls == afterGet)
            && (got.Ok? && body.None? ==> r == Err(BadRequest) && store.calls == afterGet)
            && (got.Ok? && body.Some? ==>
                  var merged := ApplyPatch(got.value, body.value);
                  && (validate(merged) != map[] ==>
                        r == Err(FailedValidation(validate(merged))) && store.calls == afterGet)
                  && (validate(merged) == map[] ==>
                        && store.calls == afterGet + [UpdateCall(merged)]
                        && match store.updateReply(afterGet, merged)
                           case Err(e) => r == Err(UpdateFailure(e))
                           case Ok(v) => r == Ok(merged.(version := v))))
  {
    var got := store.Get(id);
    if got.Err? {
      return Err(LookupFailure(got.error));
    }
    var book := got.value;
    if body.None? {
      return Err(BadRequest);
    }
    var input := body.value;
    if input.title.Some? {
      book := book.(title := input.title.value);
    }
    if input.published.Some? {
      book := book.(published := input.published.value);
    }
    if input.pages.Some? {
      book := book.(pages := input.pages.value);
    }
    if input.genres.Some? {
      book := book.(genres := input.genres.value);
    }
    assert book == ApplyPatch(got.value, input);
    var validationErrors := validate(book);
    if |validationErrors| != 0 {
      return Err(FailedValidation(validationErrors));
    }
    var updated := store.Update(book);
    if updated.Err? {
      return Err(UpdateFailure(updated.error));
    }
    book := book.(version := updated.value);
    r := Ok(book);
  }

  /** `getBookDetail`: the stored book, or the dispatched lookup failure. */
  method GetBookDetail(store: BookStore, id: int) returns (r: Result<Book, ErrorResponse>)
    modifies store
    ensures store.calls == old(store.calls) + [GetCall(id)]
    ensures match store.getReply(old(store.calls), id)
            case Ok(book) => r == Ok(book)
            case Err(e) => r == Err(LookupFailure(e))
  {
    var got := store.Get(id);
    if got.Err? {
      return Err(LookupFailure(got.error));
    }
    r := Ok(got.value);
  }

  /** `deleteBook`: true exactly when the store deleted the row; otherwise
      the response sent is the dispatched lookup failure. */
  method DeleteBook(store: BookStore, id: int) returns (deleted: bool, failure: Option<ErrorResponse>)
    modifies store
    ensures store.calls == old(store.calls) + [DeleteCall(id)]
    ensures deleted <==> store.deleteReply(old(store.calls), id).None?
    ensures failure == match store.deleteReply(old(store.calls), id)
                       case None => None
                       case Some(e) => Some(LookupFailure(e))
  {
    var err := store.Delete(id);
    if err.Some? {
      return false, Some(LookupFailure(err.value));
    }
    return true, None;
  }

  /** A query value left empty takes its default. */
  function OrDefault(value: string, default: string): (r: string)
    ensures value == "" ==> r == default
    ensures value != "" ==> r == value
    ensures r != "" || default == ""
  {
    if value == "" then default else value
  }

  /** The filters `getBookList` assembles from the query: page "1", size
      "12" and sort "id" when left empty; an unparsable number takes the
      value `strconv.Atoi` returns with its error. */
  function ListFilters(pageQuery: string, sizeQuery: string, sortQuery: string, atoi: string -> AtoiResult): (r: Filters)
    ensures var p := atoi(OrDefault(pageQuery, "1"));
            && (p.Parsed? ==> r.page == p.n)
            && (!p.Parsed? ==> r.page == 0 || r.page == MaxInt64 || r.page == MinInt64)
    ensures var s := atoi(OrDefault(sizeQuery, "12"));
            && (s.Parsed? ==> r.size == s.n)
            && (!s.Parsed? ==> r.size == 0 || r.size == MaxInt64 || r.size == MinInt64)
    ensures r.sort == if sortQuery == "" then "id" else sortQuery
  {
    Filters(AtoiValue(atoi(OrDefault(pageQuery, "1"))),
            AtoiValue(atoi(OrDefault(sizeQuery, "12"))),
            OrDefault(sortQuery, "id"))
  }

  /** The type errors `getBookList` records for numbers that do not parse. */
  function TypeErrors(pageQuery: string, sizeQuery: string, atoi: string -> AtoiResult): (r: map<string, string>)
    ensures r.Keys <= {"page", "size"}
    ensures "page" in r <==> !atoi(OrDefault(pageQuery, "1")).Parsed?
    ensures "size" in r <==> !atoi(OrDefault(sizeQuery, "12")).Parsed?
    ensures forall k :: k in r ==> r[k] == "must be an integer"
  {
    var pageErrors := if atoi(OrDefault(pageQuery, "1")).Parsed? then map[] else map["page" := "must be an integer"];
    if atoi(OrDefault(sizeQuery, "12")).Parsed? then pageErrors else pageErrors["size" := "must be an integer"]
  }

  /** A page or size that does not parse makes the filters unacceptable, so
      its "must be an integer" reaches the response. */
  lemma UnparsedNumberReported(pageQuery: string, sizeQuery: string, sortQuery: string, atoi: string -> AtoiResult)
    ensures var f := ListFilters(pageQuery, sizeQuery, sortQuery, atoi);
            var te := TypeErrors(pageQuery, sizeQuery, atoi);
            te != map[] ==> !Acceptable(f) && te.Keys <= (FilterErrors(f) + te).Keys &&
                            forall k :: k in te ==> (FilterErrors(f) + te)[k] == "must be an integer"
  {
    var f := ListFilters(pageQuery, sizeQuery, sortQuery, atoi);
    var p, s := atoi(OrDefault(pageQuery, "1")), atoi(OrDefault(sizeQuery, "12"));
    assert !p.Parsed? ==> !(1 <= f.page <= 1000);
    assert !s.Parsed? ==> !(1 <= f.size <= 20);
  }

  /** A query without page, size or sort lists the first page of twelve
      books in id order, and passes validation. */
  lemma DefaultListFilters(atoi: string -> AtoiResult)
    requires atoi("1") == Parsed(1) && atoi("12") == Parsed(12)
    ensures ListFilters("", "", "", atoi) == Filters(1, 12, "id")
    ensures Acceptable(ListFilters("", "", "", atoi))
    ensures TypeErrors("", "", atoi) == map[]
  {
    assert EqualFold("id", SortTokens[0]);
  }

  /** `getBookList`. The filters are assembled and validated; when anything
      is wrong (including a number that does not parse) the messages are
      sent and `All` is not called; otherwise `All` runs once with the
      title, genres and filters, and a store failure is a server error. */
  method GetBookList(store: BookStore, title: string, genres: seq<string>,
                     pageQuery: string, sizeQuery: string, sortQuery: string, atoi: string -> AtoiResult)
    returns (r: Result<Listing, ErrorResponse>)
    modifies store
    ensures var f := ListFilters(pageQuery, sizeQuery, sortQuery, atoi);
            && (!Acceptable(f) ==>
                  && r == Err(FailedValidation(FilterErrors(f) + TypeErrors(pageQuery, sizeQuery, atoi)))
                  && store.calls == old(store.calls))
            && (Acceptable(f) ==>
                  && store.calls == old(store.calls) + [AllCall(title, genres, f)]
                  && match store.allReply(old(store.calls), title, genres, f)
                     case Err(_) => r == Err(ServerError)
                     case Ok(listing) => r == Ok(listing))
  {
    var filterTypeErrors: map<string, string> := map[];
    var p := OrDefault(pageQuery, "1");
    var pageParse := atoi(p);
    if !pageParse.Parsed? {
      filterTypeErrors := filterTypeErrors["page" := "must be an integer"];
    }
    var page := AtoiValue(pageParse);
    var s := OrDefault(sizeQuery, "12");
    var sizeParse := atoi(s);
    if !sizeParse.Parsed? {
      filterTypeErrors := filterTypeErrors["size" := "must be an integer"];
    }
    var size := AtoiValue(sizeParse);
    var filters := Filters(page, size, OrDefault(sortQuery, "id"));
    var filterErrors := ValidateFilters(filters, filterTypeErrors);
    if |filterErrors| > 0 {
      return Err(FailedValidation(filterErrors));
    }
    var listed := store.All(title, genres, filters);
    if listed.Err? {
      return Err(ServerError);
    }
    r := Ok(listed.value);
  }
}
