# plibrary request-side logic in Dafny

plibrary is a small book-catalogue HTTP service. This project models the code
that turns untrusted list queries and book bodies into checked values, and it
proves what that code promises:

- **Pagination and sorting** (`internal/filters.go`):
  - the page metadata computed from a row count;
  - the sort allow-list and its column/direction split;
  - the `LIMIT`/`OFFSET` window;
  - `ValidateFilters` with its range and allow-list rules, first-wins error map and merged type errors.
- **Book body validation** (`cmd/api/books.go`):
  - the tag rules on title, publication year, pages and genres;
  - the tag-to-message switch;
  - the `publication_date` check;
  - the id guard of the detail handler.
- **The older filter validator** (`cmd/api/filters.go`). It works over the raw query strings, and its rules are partly vacuous.
- **The application service** (`cmd/api/book_service.go`):
  - validation gating before the store is called;
  - the partial-update merge;
  - the mapping of store errors to responses;
  - the `Location` header;
  - how the list filters are assembled from the query.

The validator library is modelled as an explicit rule table (module `Validator`):

- Each struct field has an ordered list of `Rule(tag, param, holds)`.
- Only the first failing rule of a field is reported, and fields are reported in declaration order.
- Each handler's `switch e.Tag()` is a function from tag and parameter to an optional message. `None` stands for a tag the switch has no case for.
- The handler's loop of `AddError` calls builds a first-wins map. `ErrorMaps.WithFirst` is one call, and `ErrorMaps.Collect` is the whole loop.
- The handler methods (`BookCreate`, the two `ValidateFilters`) perform that loop on a class holding the map, and are proved equal to the specification functions.

The book store is an oracle (`Repository.BookStore`):

- It keeps a log of the calls made to it.
- Each reply is a fixed function of the log so far and the arguments.
- The service contracts can therefore say both what was asked of the store and when the store was not called at all.

Modules, one per file: `Common`, `Text`, `ErrorMaps`, `Validator`, `Models`,
`InternalFilters`, `BookHandlers`, `LegacyFilters`, `Repository`,
`BookService`.

## Model

| member | source | states |
|---|---|---|
| InternalFilters.CeilDiv | internal/filters.go:40 | the page count q of a positive size satisfies (q-1)*size < total <= q*size |
| InternalFilters.CalculateMetadata | internal/filters.go:32-42 | zero rows give all-zero metadata whatever page and size; otherwise page and size are echoed, first page is 1, last page is the ceiling of total/size (at least 1 for a positive total); TotalRecords is 0 in both branches |
| InternalFilters.RowPageWithinMetadata | internal/filters.go:32-42 | the page holding any row of a non-empty result lies between the reported first and last page |
| InternalFilters.SortColumn | internal/filters.go:48-61 | defined exactly for the seven tokens of the tag, matched case-sensitively; the result is always one of id/title/published/pages and is the token with its "-" removed |
| InternalFilters.SortDirection | internal/filters.go:62-67 | "DESC" exactly when the sort starts with "-", "ASC" otherwise |
| InternalFilters.SortResolutionInjective | internal/filters.go:57-66 | column and direction together determine the allow-listed token |
| InternalFilters.SortTokensAreWords | internal/filters.go:19 | the space-separated words of the `oneofci` parameter are exactly the seven allow-listed tokens |
| InternalFilters.Limit | internal/filters.go:68-70 | the window length is the page size |
| InternalFilters.Offset | internal/filters.go:71-73 | offset plus limit is page times size; the first page starts at 0; a page of at least 1 with a size of at least 0 gives an offset of at least 0 |
| InternalFilters.WindowBounds | internal/filters.go:68-73 | for page in 1..1000 and size in 1..20 the offset is in 0..19980 and offset + limit = page*size |
| InternalFilters.RowOnOnePage | internal/filters.go:68-73 | row r lies in the window of page r/size+1 and of no other page |
| InternalFilters.NoErrorsIffAcceptable | internal/filters.go:16-20 | the validator reports nothing exactly when page is in 1..1000, size in 1..20 and sort matches the allow-list up to case |
| InternalFilters.FilterMessage | internal/filters.go:86-93 | a message exactly for max, min and oneofci: "value must be less than: ", "value must be greater than: " and "can only contain values: " followed by the tag parameter |
| InternalFilters.FilterOutcomes | internal/filters.go:17-19 | per field, the first failing tag (max before min) and the message the switch gives it |
| InternalFilters.FilterErrorsByField | internal/filters.go:84-94 | "page" maps to "value must be less than: 1000" above 1000 and "value must be greater than: 1" below 1, the same for "size" with 20, "sort" to "can only contain values: ..." off the list; no other keys |
| InternalFilters.RejectedFiltersReported | internal/filters.go:80-96 | rejected filters always leave at least one message |
| InternalFilters.FilterValidationErrors.AddError | internal/filters.go:43-47 | a present key keeps its message, an absent key is added, no other key changes |
| InternalFilters.ValidateFilters | internal/filters.go:75-102 | the empty map for acceptable filters even when type errors are given; otherwise the rule messages with every type error copied over them; empty exactly when acceptable |
| InternalFilters.ValidatedSortCanPanic | internal/filters.go:19 | page 1, size 12, sort "TITLE" passes validation, yet SortColumn has no column for it |
| InternalFilters.SortColumnFolded | internal/filters.go:48-61 | the corrected resolver: defined exactly for what the validator accepts; the result is the column of an allow-listed token the sort equals up to case |
| InternalFilters.SortColumnFoldedIsItsColumn | internal/filters.go:48-61 | a sort equal up to case to a given allow-listed token resolves to that token's own column |
| InternalFilters.SortColumnFoldedTitle | internal/filters.go:48-61 | sort "TITLE" resolves to column "title" |
| InternalFilters.SortColumnFoldedAgrees | internal/filters.go:57-59 | agrees with SortColumn wherever SortColumn is defined, and resolves every acceptable filter set |
| ErrorMaps.WithFirst | internal/filters.go:43-47 | keys grow by exactly the key offered; old entries are untouched; an absent key gets the message |
| ErrorMaps.CollectKeys | internal/filters.go:84-94 | the map built by the AddError loop has exactly the keys offered |
| ErrorMaps.CollectFirstWins | internal/filters.go:84-94 | each key holds the message of its first offer |
| Validator.FirstFailure | cmd/api/books.go:35-38 | no failure exactly when every tag holds; otherwise the earliest failing tag, all before it holding |
| Validator.StructErrors | cmd/api/books.go:50-54 | no more errors than fields; none exactly when every field passes |
| Validator.StructErrorsByField | cmd/api/books.go:50-54 | one error per failing field and none for a passing field, in declaration order, each naming its field and that field's first failing tag with its parameter |
| Validator.FailingFieldsComplete | cmd/api/books.go:50-54 | every field with a failing tag is among the positions whose errors are listed |
| Validator.ReportLookup | cmd/api/books.go:54-70 | with distinct lower-cased field names, each name maps to the message of its field's first failing tag, and is absent when the field passes or the tag has no message |
| Validator.ReportKeys | cmd/api/books.go:54-70 | every key of the recorded map is the lower-cased name of some field |
| BookHandlers.ValidateDate | cmd/api/books.go:25-32 | holds exactly for 1430 <= year <= current year |
| BookHandlers.BookMessage | cmd/api/books.go:56-69 | a message exactly for required, max, gt, lt, publication_date and unique; required and gt both read "must be provided", lt reads "must not exceed 5 items" whatever its bound, max carries its parameter, publication_date carries the current year |
| BookHandlers.TitleOutcome | cmd/api/books.go:35 | empty title fails required, more than 56 characters fails max |
| BookHandlers.PublishedOutcome | cmd/api/books.go:36 | zero fails required, a year outside 1430..current fails publication_date |
| BookHandlers.PagesOutcome | cmd/api/books.go:37 | zero and negative counts both read "must be provided"; positive counts pass |
| BookHandlers.GenresOutcome | cmd/api/books.go:38 | tags tried in the order required, unique, gt, lt |
| BookHandlers.BookReport | cmd/api/books.go:47-71 | title/published/pages/genres each hold the outcome of their own rules; no other key |
| BookHandlers.TitleError | cmd/api/books.go:57-60 | "title": "must be provided" when empty, "above the character limit: 56" when too long |
| BookHandlers.PublishedError | cmd/api/books.go:57-66 | "published": "must be provided" for 0, "publication date cannot exceed the range: 1430-<year>" outside the range |
| BookHandlers.PagesError | cmd/api/books.go:57-62 | "pages": "must be provided" for zero and for negative counts |
| BookHandlers.GenresError | cmd/api/books.go:57-68 | "genres": "must be provided" when missing or empty, "cannot contain duplicate genres" for a repeat (checked first), "must not exceed 5 items" for six or more |
| BookHandlers.BookPassesIffValid | cmd/api/books.go:50-51 | the validator finds no failing tag exactly when the body is valid |
| BookHandlers.BookErrorsEmptyIffValid | cmd/api/books.go:50-75 | no message exactly when the body is valid |
| BookHandlers.JsonValidationError.AddError | cmd/api/books.go:20-24 | a present key keeps its message, an absent key is added, no other key changes |
| BookHandlers.RecordErrors | cmd/api/books.go:54-70 | the loop of `AddError` calls leaves exactly the first-wins map of the messages of the given errors |
| BookHandlers.BookCreate | cmd/api/books.go:33-78 | undecodable body is a bad request; an invalid body is answered with the field messages; a valid one is accepted |
| BookHandlers.BookDetailId | cmd/api/books.go:79-84 | an id that fails to parse or is below 1 is not found; any other id is served unchanged |
| LegacyFilters.ValidateInteger | cmd/api/filters.go:28-31 | the integer tag holds for every value |
| LegacyFilters.ValidateInteger10 | cmd/api/filters.go:32-34 | false exactly for a value whose dynamic type is int |
| LegacyFilters.SortTokensAreWords | cmd/api/filters.go:16 | the space-separated words of the `oneofci` parameter are exactly the four ascending tokens |
| LegacyFilters.LegacyMessage | cmd/api/filters.go:48-59 | a message exactly for integer, max, gt, lt and oneofci, none for number; lt reads "must not exceed 5 items" whatever its bound |
| LegacyFilters.FourTagOutcome | cmd/api/filters.go:14-15 | with integer always holding, the first failure is number, then gt, then max/lt |
| LegacyFilters.LegacyReport | cmd/api/filters.go:46-60 | page/size/sort each hold the outcome of their own rules; keys come from the four fields |
| LegacyFilters.PageError | cmd/api/filters.go:48-59 | "page": nothing when number fails, "must be greater than: 0" for gt, "above the character limit: 10000000" for max |
| LegacyFilters.SizeError | cmd/api/filters.go:48-59 | "size": nothing when number fails, "must be greater than: 0" for gt, "must not exceed 5 items" for lt whatever its bound |
| LegacyFilters.SortError | cmd/api/filters.go:57-58 | "sort": "can only contain values: id title published pages" exactly when off the list up to case |
| LegacyFilters.DescendingRefused | cmd/api/filters.go:16 | no token starting with "-" is accepted |
| LegacyFilters.NeverIntegerMessage | cmd/api/filters.go:49-50 | "must be an integer" is never among the messages |
| LegacyFilters.SafeSortListNeverReported | cmd/api/filters.go:17 | the untagged field never gets a message |
| LegacyFilters.NonNumericPageUnreported | cmd/api/filters.go:48-59 | a non-numeric page with nothing else wrong fails validation yet yields an empty map |
| LegacyFilters.NoErrorsIffNothingFails | cmd/api/filters.go:42-65 | the validator reports nothing exactly when no tag fails |
| LegacyFilters.FilterValidationErrors.AddError | cmd/api/filters.go:23-27 | a present key keeps its message, an absent key is added, no other key changes |
| LegacyFilters.ValidateFilters | cmd/api/filters.go:36-66 | the empty map when no tag fails, the recorded messages otherwise |
| Text.AtoiValue | cmd/api/book_service.go:144 | the parsed number on success, 0 for a syntax error, the 64-bit bound of the sign for an out-of-range number |
| Repository.BookStore.Insert | cmd/api/book_service.go:51 | one Insert call is logged; the reply is the oracle's |
| Repository.BookStore.Get | cmd/api/book_service.go:61 | one Get call is logged; the reply is the oracle's |
| Repository.BookStore.Update | cmd/api/book_service.go:99 | one Update call is logged; the reply is the oracle's |
| Repository.BookStore.Delete | cmd/api/book_service.go:125 | one Delete call is logged; the reply is the oracle's |
| Repository.BookStore.All | cmd/api/book_service.go:161 | one All call is logged; the reply is the oracle's |
| BookService.Location | cmd/api/book_service.go:57 | the header starts with "/v1/books/" |
| BookService.LocationSuffix | cmd/api/book_service.go:57 | what follows "/v1/books/" is the decimal numeral of the book's id |
| BookService.LocationIdentifiesBook | cmd/api/book_service.go:56-58 | distinct ids give distinct Location headers |
| BookService.LookupFailure | cmd/api/book_service.go:112-121 | not found exactly for ErrRecordNotFound, a server error otherwise |
| BookService.UpdateFailure | cmd/api/book_service.go:100-107 | edit conflict exactly for ErrEditConflict, a server error otherwise |
| BookService.ApplyPatch | cmd/api/book_service.go:82-93 | each of title, published, pages, genres is overwritten exactly when the patch carries it (an empty genre list included); id, creation time and version never change |
| BookService.PatchLaws | cmd/api/book_service.go:82-93 | a patch applied twice acts once; the empty patch changes nothing; successive patches compose |
| BookService.NewBook | cmd/api/book_service.go:39-44 | title, publication year, pages and genres are copied from the body; id, creation time and version are zero |
| BookService.CreateBook | cmd/api/book_service.go:33-59 | bad request for an undecodable body and validation messages for an invalid book, the store untouched in both; otherwise exactly one Insert, a server error if it fails, else the book with its assigned fields and its Location |
| BookService.UpdateBook | cmd/api/book_service.go:60-110 | Get first, with its error dispatched; bad request for an undecodable body; validation of the merged book, Update not called when it fails; otherwise exactly one Update of the merged book, with edit conflict or server error on failure and the new version on success |
| BookService.GetBookDetail | cmd/api/book_service.go:111-123 | one Get; the stored book or the dispatched failure |
| BookService.DeleteBook | cmd/api/book_service.go:124-137 | true exactly when Delete reported no error; otherwise not found or a server error |
| BookService.OrDefault | cmd/api/book_service.go:143 | an empty query value takes the default, any other value is kept; the result is empty only when the default is |
| BookService.TypeErrors | cmd/api/book_service.go:142-153 | "page" (default "1") and "size" (default "12") are keys exactly when their value does not parse, each reading "must be an integer"; no other key |
| BookService.ListFilters | cmd/api/book_service.go:143-155 | a parsed page or size is used as parsed, an unparsed one is 0 or a 64-bit bound; the sort is the query value, "id" when empty |
| BookService.UnparsedNumberReported | cmd/api/book_service.go:142-158 | a page or size that does not parse makes the filters unacceptable, and its key reads "must be an integer" in the response |
| BookService.DefaultListFilters | cmd/api/book_service.go:143-155 | an empty query lists page 1 of 12 books sorted by id, and passes validation |
| BookService.GetBookList | cmd/api/book_service.go:138-167 | unacceptable filters are answered with the rule messages plus the type errors and All is not called; otherwise exactly one All with the title, genres and filters, a server error if it fails |

## Left out

- HTTP plumbing is not modelled: response writing, status codes, envelopes, routing, the server and its graceful shutdown. Responses are the `ErrorResponse` values.
- JSON decoding (`readJson`) and the query helpers `readString`, `readCSV` and `checkEmptyStrings` are not part of this model. A decoded body is a parameter, with `None` standing for a decoding error, and an empty query value is taken to mean "use the default".
- The repository's SQL and its version-conditioned updates are not part of this model. The store is an oracle whose replies are parameters, and `Book.Validate`, which is not part of this model either, is a function parameter of the service methods.
- The package-level `createInput` and `listInput` are shared across requests. If `readJson` decodes the way `encoding/json` does, into the existing value, a field missing from a create body keeps the previous request's value, even when requests arrive one after another: a body without "pages" would inherit the pages of the last create. This depends on `readJson`, which is not part of this model. The model passes each decoded body whole, so one request cannot see what another left behind, and concurrent interleavings are not modelled either.
- Concurrency is not modelled.
- `time.Now` is not modelled: the current year is a parameter.
- Debug output (`fmt.Println`), the `fmt.Fprintf` echo in `bookCreate` and the fixed stub book written by `bookDetail` are left out.
- The reflection in `SortColumn` is left out. It re-reads the tag text, and the model uses that text as a constant, built by joining the allow-list with spaces; `Text.Words` splits it back.
- InternalFilters.CalculateMetadata: requires a positive page size when there are rows. Go's float division and `math.Ceil` are replaced by integer ceiling division, and the page size 0 case is left out.
- Text.CaseFold: covers only the Unicode simple folds that can make a character equal to an ASCII letter (ASCII case, U+017F and U+212A). `EqualFold` is therefore exact only when one side is ASCII, as every allow-list word is.
- The machine integer widths are not modelled: `int64` ids, the `int32` fields of the create body, and `int` offsets.
- Offset overflow for unvalidated filters is not modelled.
- Text.AtoiValue: assumes a 64-bit `int`.
- The library's own meaning of `number`, `gt`, `max` and `lt` on strings is not modelled. Their verdicts are a parameter.
- The `Book` datatype has no distinction between a nil and an empty genre list. `updateBook` tells them apart in the patch, which is modelled with `Option`.
- BookService.CreateBook: on a failure it returns the error kind as `Err`, instead of writing the error response and returning an empty `Book` with a nil header; on success it returns the book and its Location, as `createBook` does.

## Findings

| source | as written | input that shows it | evidently intended | confidence | as-written member | corrected member |
|---|---|---|---|---|---|---|
| internal/filters.go:57 | `SortColumn` matches the sort token exactly, while the `oneofci` tag on line 19 accepts it in any case | `Filters{Page: 1, Size: 12, Sort: "TITLE"}` passes `ValidateFilters`, then `SortColumn` panics with "unsafe sort param: TITLE" | a sort token that passes validation resolves to its column | high for the mismatch; not executed | InternalFilters.ValidatedSortCanPanic | InternalFilters.SortColumnFolded |
