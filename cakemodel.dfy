/** The value types of internal/model: the table row, the repository's
    parameters, the use case's parameters and responses, and the classified
    error the use case hands to the delivery layer. */
module CakeModel {
  import opened Wrappers

  /** A point in time. The service only stores, copies and formats timestamps,
      so the model keeps them as opaque numbers supplied by the caller. */
  type Timestamp = int

  /** A row of the cakes table. Go's float32 rating, which the service only
      compares and sorts, is a real here; nil pointers are None. */
  datatype Cake = Cake(
    id: int,
    title: string,
    description: Option<string>,
    rating: real,
    image: Option<string>,
    createdAt: Timestamp,
    updatedAt: Timestamp,
    deletedAt: Option<Timestamp>)

  /** LIMIT and OFFSET of the listing statement. */
  datatype GetCakesQuery = GetCakesQuery(limit: int, offset: int)

  /** The columns an insert or an update writes. */
  datatype CakePayloadQuery = CakePayloadQuery(
    title: string,
    description: Option<string>,
    rating: real,
    image: Option<string>)

  datatype GetCakesUsecaseParam = GetCakesUsecaseParam(page: int, pageSize: int)

  datatype MetaPagination = MetaPagination(pageCount: int, totalData: int)

  /** A row as the API shows it; the timestamps are already formatted. */
  datatype CakeResponse = CakeResponse(
    id: int,
    title: string,
    description: Option<string>,
    rating: real,
    image: Option<string>,
    createdAt: string,
    updatedAt: string)

  datatype GetCakesResponse = GetCakesResponse(meta: MetaPagination, data: seq<CakeResponse>)

  /** The "mutation echo": the fields just written, not a re-read of the row. */
  datatype CakeMutationResponse = CakeMutationResponse(
    title: string,
    description: Option<string>,
    rating: real,
    image: Option<string>)

  datatype CakeDeleteResponse = CakeDeleteResponse(id: int)

  datatype ErrorDetailResponse = ErrorDetailResponse(detail: string)

  /** A classified failure: the HTTP status, the message of `Err`, and the
      optional `ErrData` payload (nil for not-found). */
  datatype ErrorResponse = ErrorResponse(
    httpStatusCode: int,
    message: string,
    errData: Option<ErrorDetailResponse>)

  /** What a use-case call returns: its response, or its error (never both). */
  datatype Outcome<+T> = Success(value: T) | Failure(error: ErrorResponse)

  const StatusOK: int := 200
  const StatusBadRequest: int := 400
  const StatusNotFound: int := 404
  const StatusInternalServerError: int := 500
}
