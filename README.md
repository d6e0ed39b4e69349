# Cake service model

A Dafny model of the core of a small layered CRUD service for a `cakes` table
(the Go repository ralali-test). A request goes through three layers:

- the HTTP **delivery** layer binds and checks the request;
- the **use case** layer runs the repository calls, classifies failures as
  404 or 500 and builds the response views;
- the **repository** runs six prepared SQL statements against a MySQL table.
  Rows are soft-deleted through a `deleted_at` column.

The model has one module per layer, plus two helper modules:

- `Pagination` (`pagination.dfy`): the page-count arithmetic of `util/pagination.go`.
- `GoStrings` (`gostrings.dfy`): the three pieces of Go's standard library the
  core depends on for text. These are `strings.TrimSpace` with the
  `unicode.IsSpace` set, `strconv.Atoi` on a 64-bit platform, and the `%d`
  verb of `fmt`.
- `CakeModel` (`cakemodel.dfy`): the value types of `internal/model`.
- `ApiPayload` (`apipayload.dfy`): the listing query and the create/update
  body.
  - `Validated` is the value-level meaning of `Validate`.
  - The class `ApiMutationCakePayload` has a `Validate` method that
    overwrites its own fields in place, as the Go method does through its
    pointer receiver.
- `Repository` (`repository.dfy`): the table as a class over a sequence of
  rows plus an auto-increment counter.
  - The SQL statements become functions on the row sequence:
    - `Visible` is `WHERE deleted_at IS NULL`;
    - `SortForListing` is `ORDER BY rating DESC, title ASC`;
    - `Window` is `LIMIT ? OFFSET ?`;
    - `FindVisible` is the single-row lookup;
    - `NewRow`, `UpdatedRows` and `SoftDeletedRows` are the three writes.
  - The methods read or change the rows step by step, and are proved
    against those functions.
- `Usecase` (`usecase.dfy`): the class `CakeUsecase`, built over a
  `CakeDBRepository`. Its methods call the repository's methods.
- `Delivery` (`delivery.dfy`): the two request handlers as decisions from a
  request to a status, a body, and whether the use case was called. The use
  case is reached through its interface, so each handler takes the use-case
  call as a function value.

External inputs become parameters:

- A store failure is an `Option<string>` parameter of each repository
  operation. `Some(text)` is the driver's error text.
- The clock reading of `time.Now().UTC()` is a `now: Timestamp` parameter.
- Local-time formatting is a function value `formatLocal` held by the use
  case.

Two behaviours of the listing are worth stating up front:

- **No default page.** Neither handler nor use case rewrites `page`. The use
  case reads from offset 0 for any `page <= 0`, which gives the same rows as
  page 1 (`Usecase.OffsetOfPages`).
- **Fetch failure first.** The fetch error is checked before the count
  error, so it is the one reported when both fail
  (`Usecase.CakeUsecase.GetCakes`).

## Model

| member | source | states |
|---|---|---|
| Pagination.GetPageCount | util/pagination.go:3-16 | Always at least 1. It is 1 for a non-positive page size and for a page size that holds every row. Otherwise (r-1)*pageSize < totalData <= r*pageSize: enough pages, and no empty last page. |
| Pagination.PageCountIsLeast | util/pagination.go:9-13 | In the division branch the result is the only k >= 1 with (k-1)*pageSize < totalData <= k*pageSize. So it is exactly the ceiling of totalData/pageSize. |
| Pagination.PageCountExamples | util/pagination_test.go:15-38 | (1,1) gives 1, (5,10) gives 2 and (6,5) gives 1. |
| GoStrings.TrimRight | internal/model/http-cake.go:21 | Dropping trailing white space leaves a prefix that does not end in white space. What was dropped is blank. |
| GoStrings.IsSpace | internal/model/http-cake.go:21 | White space as `unicode.IsSpace` defines it: tab, newline, vertical tab, form feed, carriage return, space, U+0085, U+00A0, and the other Unicode White_Space characters. |
| GoStrings.TrimSpace | internal/model/http-cake.go:21 | The trim is empty exactly when the text is blank. A non-empty trim neither starts nor ends with white space. |
| GoStrings.TrimSpaceSlice | internal/model/http-cake.go:21 | The trim is the slice of the text between a blank prefix and a blank suffix. Together with `TrimSpace` this fixes the result: the longest such prefix and suffix are dropped. |
| GoStrings.TrimmedIsFixed | internal/model/http-cake.go:26 | A text that neither starts nor ends with white space is its own trim. |
| GoStrings.TrimSpaceIdempotent | internal/model/http-cake.go:33 | Trimming twice gives the same as trimming once. |
| GoStrings.FormatNat | internal/usecase/uc-cake.go:102 | The decimal rendering of n is a non-empty digit string whose value is n. It has no leading zero unless n is 0. |
| GoStrings.FormatInt | internal/usecase/uc-cake.go:102 | A non-negative number renders as its decimal digits. A negative number renders as '-' followed by the digits of its magnitude. There is no leading zero: a rendering starts with '0' only for 0, and a negative one has no '0' after the sign. |
| GoStrings.FormatIntInjective | internal/usecase/uc-cake.go:102 | Different numbers have different renderings. |
| GoStrings.Atoi | internal/delivery/http-cake.go:49 | A text parses exactly when it is one or more digits, optionally after one '+' or '-' sign, and the value fits in int64. The value is the digits' decimal value, negated after '-'. Every other text, the empty one included, is rejected. |
| GoStrings.AtoiAccepts | internal/delivery/http-cake.go:49 | "+007" parses as 7, "-12" as -12 and "-0" as 0. |
| GoStrings.AtoiFormatInt | internal/delivery/http-cake.go:49 | Parsing the `%d` rendering of any int64 gives the same number back. |
| GoStrings.AtoiRejects | internal/delivery/http-cake.go:49-53 | The empty text, a lone sign, letters, a trailing letter and a leading space do not parse. |
| ApiPayload.ValidationError.FieldName | internal/model/http-cake.go:23-40 | The checked field is title, description, image or rating; the four names start with different letters. |
| ApiPayload.ValidationError.Message | internal/model/http-cake.go:23-40 | Every message starts with "field '", then the failing field's name and a closing quote, then the complaint. |
| ApiPayload.MessagesDistinct | internal/model/http-cake.go:23-40 | The four failures have four different messages. |
| ApiPayload.Validated | internal/model/http-cake.go:20-43 | The title is always replaced by its trim, and the rating is never changed. The body is accepted exactly when the title is not blank, a present description or image is not blank, and 0 <= rating <= 5. |
| ApiPayload.ValidatedNormal | internal/model/http-cake.go:25-38 | An accepted body has every present text trimmed and non-empty and the rating in range. An absent description or image stays absent, and a present one becomes its trim. |
| ApiPayload.ValidationCheckOrder | internal/model/http-cake.go:21-41 | Checks run title, description, image, rating. The first failing check decides the error, e.g. a blank title with a bad rating gives the title error. |
| ApiPayload.ValidationLeavesEarlierFieldsTrimmed | internal/model/http-cake.go:21-38 | The title is always replaced by its trim, even when the title check fails. When the description or image check fails, that field and every later field are untouched, and the fields before it are already trimmed. A rating failure leaves all three texts trimmed. |
| ApiPayload.NormalIsFixed | internal/model/http-cake.go:20-43 | A body in accepted form passes validation unchanged. |
| ApiPayload.ValidatedIdempotent | internal/model/http-cake.go:21-38 | Validating an accepted body again succeeds and changes nothing. |
| ApiPayload.AcceptedExamples | internal/model/http-cake_test.go:21-40 | The full body and the body with absent optionals are accepted, with rating 4.5 and at both ends of the range. |
| ApiPayload.RejectedExamples | internal/model/http-cake_test.go:41-80 | Rating 5.5 and -0.1, an empty or blank title, an empty description and an empty image are rejected, each with its own error. |
| ApiPayload.TitleTrimExample | internal/model/http-cake.go:21-24 | " T " is accepted and stored as "T". |
| ApiPayload.ApiMutationCakePayload.Validate | internal/model/http-cake.go:20-43 | The in-place method leaves the object holding exactly the body `Validated` gives, and returns its error. |
| Repository.TitleLeqTotal | internal/repository/db-cake.go:33 | The title order is total. |
| Repository.TitleLeqTransitive | internal/repository/db-cake.go:33 | The title order is transitive. |
| Repository.ListedBefore | internal/repository/db-cake.go:33 | `ORDER BY rating DESC, title ASC` as a comparison: a higher rating comes first, and an equal rating is ordered by title. |
| Repository.ListedBeforeTotal | internal/repository/db-cake.go:33 | Rating descending, then title ascending, is a total order. |
| Repository.ListedBeforeTransitive | internal/repository/db-cake.go:33 | Rating descending, then title ascending, is transitive. |
| Repository.InsertForListing | internal/repository/db-cake.go:33 | Inserting a row into a sorted listing keeps it sorted and adds exactly that row. |
| Repository.SortForListing | internal/repository/db-cake.go:33 | The listing is sorted by rating descending, then title ascending, and is a permutation of its input. |
| Repository.Visible | internal/repository/db-cake.go:33 | A row is listed exactly when it is in the table with deleted_at NULL. |
| Repository.VisibleCounts | internal/repository/db-cake.go:49 | Each live row is kept as often as the table holds it, and no soft-deleted row is kept. So the length of the filtered table is the number of live rows. |
| Repository.VisibleExtended | internal/repository/db-cake.go:49 | Extending the scanned prefix by one row adds one live row, or none if that row is soft-deleted. |
| Repository.FindVisible | internal/repository/db-cake.go:53 | A found row is in the table, has the requested id and is not soft-deleted. |
| Repository.FindVisibleNone | internal/repository/db-cake.go:53 | The lookup finds nothing exactly when no live row has the id. |
| Repository.Listing | internal/repository/db-cake.go:33 | The listing before LIMIT/OFFSET, i.e. `WHERE deleted_at IS NULL ORDER BY rating DESC, title ASC`. It is sorted by `ListedBefore` and holds exactly the live rows. |
| Repository.Window | internal/repository/db-cake.go:33 | LIMIT/OFFSET keeps min(limit, n - offset) rows, none when offset >= n. Row i of the page is row offset + i of the listing. |
| Repository.ListingWindowSound | internal/repository/db-cake.go:33 | Every page is sorted and holds only live rows. A page from offset 0 that is long enough holds every live row. |
| Repository.WindowIsSlice | internal/repository/db-cake.go:33 | The page is the slice of the listing between the clamped offset and the clamped end. |
| Repository.NewRow | internal/repository/db-cake.go:127-132 | The inserted row carries the given id and the payload's columns. Its created_at and updated_at are the same statement time, and deleted_at is NULL. |
| Repository.UpdatedRows | internal/repository/db-cake.go:41 | Rows with the id get the payload's columns and the new updated_at, whether soft-deleted or not. Their id, created_at and deleted_at are kept, and every other row is unchanged. |
| Repository.SoftDeletedRows | internal/repository/db-cake.go:45 | Rows with the id get deleted_at set and stay in the table. Every other row, and every other column, is unchanged. |
| Repository.FindInserted | internal/repository/db-cake.go:37 | After an insert, the lookup by the new id finds exactly the inserted row. |
| Repository.FindUpdated | internal/repository/db-cake.go:41 | After an update, the lookup by that id finds the updated columns and created_at unchanged. A missing or soft-deleted id stays missing. |
| Repository.FindSoftDeleted | internal/repository/db-cake.go:45 | After a soft delete, the lookup by that id finds nothing. |
| Repository.FindOtherIdUnaffected | internal/repository/db-cake.go:41-45 | An update or a soft delete of one id leaves the lookup of every other id unchanged. |
| Repository.ReadWindow | internal/repository/db-cake.go:76-85 | Reading the cursor row by row collects exactly the page. |
| Repository.CakeDBRepository.constructor | internal/repository/db-cake.go:28-67 | A new repository starts over an empty table with the counter at 1. |
| Repository.CakeDBRepository.GetCakes | internal/repository/db-cake.go:69-86 | On success, returns the page of live rows in listing order. On a store error, or a negative LIMIT/OFFSET, returns no rows and the error. |
| Repository.CakeDBRepository.CountCakes | internal/repository/db-cake.go:88-103 | On success, returns the number of live rows. On a store error, returns 0 and the error. |
| Repository.CakeDBRepository.GetCake | internal/repository/db-cake.go:105-125 | Returns the live row with the id. It returns nil without an error when there is none, and nil with the error on a store error. |
| Repository.CakeDBRepository.InsertCake | internal/repository/db-cake.go:127-132 | Appends the payload under the next id, with equal created_at and updated_at and deleted_at NULL. A store error changes nothing. Keeps ids unique and increasing. After a successful insert, the lookup by the new id finds exactly the new row. |
| Repository.CakeDBRepository.UpdateCake | internal/repository/db-cake.go:134-139 | The table becomes `UpdatedRows`; a missing id is not an error. A store error changes nothing. |
| Repository.CakeDBRepository.SoftDeleteCake | internal/repository/db-cake.go:141-146 | The table becomes `SoftDeletedRows`. A store error changes nothing. |
| Usecase.Offset | internal/usecase/uc-cake.go:110-113 | For a non-negative page size the offset is never negative. |
| Usecase.OffsetOfPages | internal/usecase/uc-cake.go:110-114 | A page number <= 0 reads from offset 0, like page 1. Consecutive pages are adjacent. |
| Usecase.MapCakeDataResponses | internal/usecase/uc-cake.go:158-161 | The response rows have the length and order of the fetched rows, each mapped on its own. |
| Usecase.MapCakeDataResponse | internal/usecase/uc-cake.go:165-175 | The view copies id, title, description, rating and image unchanged. It renders both timestamps with the local-time formatter, and does not show deleted_at. |
| Usecase.InternalError | internal/usecase/uc-cake.go:91-97 | A store failure is status 500 with the given message, and the store's error text as detail. |
| Usecase.NotFoundError | internal/usecase/uc-cake.go:99-104 | A missing row is status 404 with no error data. |
| Usecase.NotFoundErrorsDistinct | internal/usecase/uc-cake.go:102 | The not-found message names the id, so different ids give different errors. |
| Usecase.Echo | internal/usecase/uc-cake.go:80-85 | The mutation echo carries exactly the payload's title, description, rating and image. |
| Usecase.EchoMatchesStoredRow | internal/usecase/uc-cake.go:80-85 | The echo of a create shows the same columns as a later read of the inserted row. |
| Usecase.DetailOutcome | internal/usecase/uc-cake.go:88-107 | A store error gives 500 "error get cake data" with the error text as detail. It is 404 exactly when no live row has the id; the 404 has no error data. Otherwise the live row's fields are copied unchanged and its timestamps formatted. |
| Usecase.SingleRowPage | internal/usecase/uc-cake.go:109-162 | With one live row, page 1 of size 1 counts one page and shows that row. |
| Usecase.CakeUsecase.constructor | internal/usecase/uc-cake.go:20-24 | The use case keeps the repository it is given, and the local-time formatter. |
| Usecase.CakeUsecase.GetDetailCake | internal/usecase/uc-cake.go:88-107 | Answers `DetailOutcome` of the current table. |
| Usecase.CakeUsecase.UpdateCake | internal/usecase/uc-cake.go:46-67 | A failed existence check is returned unchanged and the table is untouched, so a missing or soft-deleted id gives 404. An update failure gives 500 "error update cake data". Success echoes the payload and applies `UpdatedRows`. |
| Usecase.CakeUsecase.DeleteCake | internal/usecase/uc-cake.go:26-44 | A failed existence check is returned unchanged and the table is untouched, so a missing or soft-deleted id gives 404. A delete failure gives 500 "error delete cake data". Success answers the id and applies `SoftDeletedRows`. |
| Usecase.CakeUsecase.CreateCake | internal/usecase/uc-cake.go:69-86 | An insert failure gives 500 "error add cake data" and the table is unchanged. Success echoes the payload and appends the new row, which the lookup by the new id then finds. |
| Usecase.CakeUsecase.GetCakes | internal/usecase/uc-cake.go:109-163 | A fetch error is reported before a count error, both as 500. On success the total is the live-row count and the page count is `GetPageCount` of it. The data is the page at offset `Offset(page, pageSize)`, mapped row by row in order. |
| Delivery.ErrorReply | internal/delivery/http-cake.go:38-41 | A use-case error is answered with its own status, its message and its error data. |
| Delivery.GetCakes | internal/delivery/http-cake.go:22-44 | A bind failure gives 400 "invalid query parameter:" plus the reason, and page_size > 100 gives 400 "maximum page_size is 100"; in both the use case is not called. Otherwise page and page_size go through unchanged, and a use-case error is forwarded with its own status or the response is answered 200. |
| Delivery.GetCake | internal/delivery/http-cake.go:46-61 | An id that is not an integer gives 400 "invalid parameter id" without calling the use case. Otherwise the use-case error is forwarded with its own status and data, or the view is answered 200. |
| Delivery.PageSizeBoundary | internal/delivery/http-cake.go:30-33 | page_size 100 reaches the use case, 101 is answered 400. |
| Delivery.GetCakeStatuses | internal/delivery/http-cake.go:46-61 | Over a working table the status is 200, 400 or 404. It is 404 exactly when the id parses and no live row has it. |
| Delivery.GetAfterInsert | internal/delivery/http-cake.go:46-61 | Fetching a just-inserted row by its decimal id answers 200 with the written fields and equal timestamps. |
| Delivery.GetAfterSoftDelete | internal/delivery/http-cake.go:46-61 | Fetching a just-soft-deleted id answers the 404 classification. |

## Left out

- Process setup, configuration, the router, the server lifecycle and the generated API documentation: these are I/O and wiring, not logic.
- Statement preparation, the prepared-statement map, `logrus.Panic` and `rows.Scan` failures: a store failure is one abstract error text per call.
- Repository.CakeDBRepository.GetCakes, Repository.CakeDBRepository.CountCakes, Repository.CakeDBRepository.GetCake: the Go loops over `rows.Next()` never consult `rows.Err()` (internal/repository/db-cake.go:76-85, 95-101, 113-124), so a fault that ends the row iteration early, such as a dropped connection, is swallowed there: a truncated page, a count of 0, or no row without an error (which the use case then answers as 404). The model's `fault` parameter stands only for a failing statement, so this silent case is not modelled.
- Usecase.CakeUsecase.GetCakes: the count and the fetch run one after the other instead of in two goroutines joined by a `sync.WaitGroup`. The two calls are independent, so only their order of completion is lost.
- `context.Context` cancellation is not modelled.
- Timestamps are opaque integers. `time.Now().UTC()` is a parameter, and `Local().Format(time.DateTime)` is a function value supplied by the caller, because it depends on the machine's time zone.
- The rating is a `real`: float32 rounding and NaN are not modelled. The service only stores, compares and sorts it.
- Repository.TitleLeq: MySQL's collation of titles is replaced by code-point order.
- Repository.SortForListing: rows that tie on rating and title keep their table order. MySQL leaves their order unspecified, so the model picks one admissible order. `ListingWindowSound` states only sortedness, liveness and completeness, which hold for every admissible order.
- Repository.CakeDBRepository.GetCakes: a negative LIMIT or OFFSET is a store error with a fixed text. The exact MySQL message is not modelled.
- Usecase.Offset: `(page - 1) * pageSize` is unbounded. The wrap-around of Go's 64-bit `int` for extreme page numbers is not modelled.
- Delivery.GetCakes: gin's `ShouldBind` and its `binding:"required"` rule are an abstract success or failure carrying gin's error text.
- The JSON encoding of the reply bodies (`JsonErrorResp`, the struct tags) is not part of this model.
- The create, update and delete request handlers are routed by the service, but `internal/delivery/http-cake.go` does not contain them. They are not part of this model.
- `internal/model/cake.go` declares a second, conflicting `Cake` type; the model uses the one in `internal/model/db-cake.go`. `internal/model/query-repository.go` holds unused duplicate types. Neither is part of this model.
- The generated repository and use-case mocks are not part of this model.
