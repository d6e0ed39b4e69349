/** The two request handlers of internal/delivery/http-cake.go, as decisions
    from a request to the one JSON response they write. The use case is
    reached through its interface, so each handler takes the use-case call as
    a function; the reply records whether that call was made. */
module Delivery {
  import opened Wrappers
  import opened CakeModel
  import opened ApiPayload
  import opened Repository
  import opened Usecase
  import opened GoStrings

  /** What binding the query string produced: gin's error text, or the query. */
  datatype Binding<T> = BindError(reason: string) | Bound(value: T)

  /** The JSON bodies the handlers write. */
  datatype Body =
    | ErrorBody(errorMessage: string, errData: Option<ErrorDetailResponse>)
    | CakesBody(cakes: GetCakesResponse)
    | CakeBody(cake: CakeResponse)

  /** The response written, and whether the use case was called to produce it. */
  datatype Reply = Reply(status: int, body: Body, usecaseCalled: bool)

  const MaxPageSize: int := 100

  /** The reply for a use case's error: its own status, its message and its data. */
  function ErrorReply(e: ErrorResponse): (r: Reply)
    ensures r.status == e.httpStatusCode && r.usecaseCalled
    ensures r.body == ErrorBody(e.message, e.errData)
  {
    Reply(e.httpStatusCode, ErrorBody(e.message, e.errData), true)
  }

  /** `GET /cakes`. A binding failure and a page_size above 100 are answered
      400 without calling the use case; otherwise page and page_size go to the
      use case unchanged, and its error is forwarded with its own status, or
      its response is answered 200. */
  function GetCakes(query: Binding<ApiGetCakesQuery>, getCakes: GetCakesUsecaseParam -> Outcome<GetCakesResponse>)
    : (r: Reply)
    ensures r.usecaseCalled <==> query.Bound? && query.value.pageSize <= MaxPageSize
    ensures query.BindError? ==>
      r == Reply(StatusBadRequest, ErrorBody("invalid query parameter:" + query.reason, None), false)
    ensures query.Bound? && query.value.pageSize > MaxPageSize ==>
      r == Reply(StatusBadRequest, ErrorBody("maximum page_size is 100", None), false)
    ensures r.usecaseCalled ==>
      var out := getCakes(GetCakesUsecaseParam(query.value.page, query.value.pageSize));
      && (out.Failure? ==> r == ErrorReply(out.error))
      && (out.Success? ==> r == Reply(StatusOK, CakesBody(out.value), true))
  {
    match query
    case BindError(reason) =>
      Reply(StatusBadRequest, ErrorBody("invalid query parameter:" + reason, None), false)
    case Bound(q) =>
      if q.pageSize > MaxPageSize then
        Reply(StatusBadRequest, ErrorBody("maximum page_size is 100", None), false)
      else
        match getCakes(GetCakesUsecaseParam(q.page, q.pageSize))
        case Failure(e) => ErrorReply(e)
        case Success(response) => Reply(StatusOK, CakesBody(response), true)
  }

  /** `GET /cakes/{id}`. An id that is not an integer is answered 400 without
      calling the use case; otherwise the use case's error is forwarded with
      its own status, or its view is answered 200. */
  function GetCake(idParam: string, getDetailCake: int -> Outcome<CakeResponse>): (r: Reply)
    ensures r.usecaseCalled <==> Atoi(idParam).Some?
    ensures Atoi(idParam).None? ==> r == Reply(StatusBadRequest, ErrorBody("invalid parameter id", None), false)
    ensures r.usecaseCalled ==>
      var out := getDetailCake(Atoi(idParam).value);
      && (out.Failure? ==> r == ErrorReply(out.error))
      && (out.Success? ==> r == Reply(StatusOK, CakeBody(out.value), true))
  {
    match Atoi(idParam)
    case None => Reply(StatusBadRequest, ErrorBody("invalid parameter id", None), false)
    case Some(id) =>
      match getDetailCake(id)
      case Failure(e) => ErrorReply(e)
      case Success(response) => Reply(StatusOK, CakeBody(response), true)
  }

  /** The page sizes at the boundary: 100 reaches the use case, 101 does not. */
  lemma PageSizeBoundary(page: int, getCakes: GetCakesUsecaseParam -> Outcome<GetCakesResponse>)
    ensures GetCakes(Bound(ApiGetCakesQuery(page, 100)), getCakes).usecaseCalled
    ensures GetCakes(Bound(ApiGetCakesQuery(page, 101)), getCakes).status == StatusBadRequest
  {
  }

  /** Against the use case over a table whose lookup succeeds, the handler's
      status is 200, 400 or 404, and it is 404 exactly when the id parses and
      no live row has it. */
  lemma GetCakeStatuses(idParam: string, rows: seq<Cake>, formatLocal: Timestamp -> string)
    ensures var r := GetCake(idParam, id => DetailOutcome(rows, id, None, formatLocal));
      && r.status in {StatusOK, StatusBadRequest, StatusNotFound}
      && (r.status == StatusNotFound <==> Atoi(idParam).Some? && FindVisible(rows, Atoi(idParam).value).None?)
  {
  }

  /** Creating a row and then fetching it by its id (written in decimal)
      answers 200 with the fields that were written and equal creation and
      update times. */
  lemma GetAfterInsert(rows: seq<Cake>, id: int, p: CakePayloadQuery, now: Timestamp, formatLocal: Timestamp -> string)
    requires IdsBelow(rows, id) && MinInt64 <= id <= MaxInt64
    ensures GetCake(FormatInt(id), x => DetailOutcome(rows + [NewRow(id, p, now)], x, None, formatLocal))
      == Reply(StatusOK, CakeBody(CakeResponse(id, p.title, p.description, p.rating, p.image,
                                               formatLocal(now), formatLocal(now))), true)
  {
    AtoiFormatInt(id);
    FindInserted(rows, id, p, now);
  }

  /** Soft-deleting an id and then fetching it answers 404. */
  lemma GetAfterSoftDelete(rows: seq<Cake>, id: int, now: Timestamp, formatLocal: Timestamp -> string)
    requires MinInt64 <= id <= MaxInt64
    ensures GetCake(FormatInt(id), x => DetailOutcome(SoftDeletedRows(rows, id, now), x, None, formatLocal))
      == ErrorReply(NotFoundError(id))
  {
    AtoiFormatInt(id);
    FindSoftDeleted(rows, id, now);
  }
}
