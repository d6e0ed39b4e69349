/** The orchestration layer of internal/usecase/uc-cake.go: each operation
    composes repository calls, classifies their failures into 404 or 500
    responses and builds the response views. */
module Usecase {
  import opened Wrappers
  import opened CakeModel
  import opened Repository
  import opened Pagination
  import GoStrings

  /** The first row of page `page`: pages are numbered from 1, and a page
      number below 1 starts at the first row. */
  function Offset(page: int, pageSize: int): (offset: int)
    ensures pageSize >= 0 ==> offset >= 0
  {
    if page > 0 then NonNegativeProduct(page - 1, pageSize); (page - 1) * pageSize else 0
  }

  lemma NonNegativeProduct(a: int, b: int)
    requires a >= 0
    ensures b >= 0 ==> a * b >= 0
  {
  }

  /** A page number below 1 reads the same rows as page 1, and for a
      non-negative page size consecutive pages are adjacent, non-overlapping
      runs of the listing. */
  lemma OffsetOfPages(page: int, pageSize: int)
    ensures page <= 0 ==> Offset(page, pageSize) == Offset(1, pageSize) == 0
    ensures page >= 1 ==> Offset(page + 1, pageSize) == Offset(page, pageSize) + pageSize
  {
    if page >= 1 {
      assert page * pageSize == (page - 1) * pageSize + pageSize;
    }
  }

  /** mapCakeDataResponse: the view of a row, with both timestamps rendered by
      the process's local-time formatter. */
  function MapCakeDataResponse(cake: Cake, formatLocal: Timestamp -> string): (r: CakeResponse)
    ensures r.id == cake.id && r.title == cake.title && r.description == cake.description
    ensures r.rating == cake.rating && r.image == cake.image
    ensures r.createdAt == formatLocal(cake.createdAt) && r.updatedAt == formatLocal(cake.updatedAt)
  {
    CakeResponse(cake.id, cake.title, cake.description, cake.rating, cake.image,
                 formatLocal(cake.createdAt), formatLocal(cake.updatedAt))
  }

  /** The response rows of a page: each fetched row mapped on its own, in the
      order fetched. */
  method MapCakeDataResponses(cakes: seq<Cake>, formatLocal: Timestamp -> string) returns (data: seq<CakeResponse>)
    ensures |data| == |cakes|
    ensures forall i :: 0 <= i < |cakes| ==> data[i] == MapCakeDataResponse(cakes[i], formatLocal)
  {
    data := [];
    for i := 0 to |cakes|
      invariant |data| == i
      invariant forall k :: 0 <= k < i ==> data[k] == MapCakeDataResponse(cakes[k], formatLocal)
    {
      data := data + [MapCakeDataResponse(cakes[i], formatLocal)];
    }
  }

  /** A store fault, classified: status 500, a fixed message and the store's
      error text as detail. */
  function InternalError(message: string, detail: string): (e: ErrorResponse)
    ensures e.httpStatusCode == StatusInternalServerError && e.message == message
    ensures e.errData == Some(ErrorDetailResponse(detail))
  {
    ErrorResponse(StatusInternalServerError, message, Some(ErrorDetailResponse(detail)))
  }

  /** The not-found classification: status 404, the id in the message, no
      error data. */
  function NotFoundError(id: int): (e: ErrorResponse)
    ensures e.httpStatusCode == StatusNotFound && e.errData.None?
  {
    ErrorResponse(StatusNotFound, "cake data with id " + GoStrings.FormatInt(id) + " not found", None)
  }

  /** The not-found message names the id: different ids give different errors. */
  lemma NotFoundErrorsDistinct(a: int, b: int)
    requires NotFoundError(a) == NotFoundError(b)
    ensures a == b
  {
    var m := NotFoundError(a).message;
    assert GoStrings.FormatInt(a) == m[18..|m| - 10];
    assert GoStrings.FormatInt(b) == m[18..|m| - 10];
    GoStrings.FormatIntInjective(a, b);
  }

  /** The mutation echo: exactly the fields that were written. */
  function Echo(payload: CakePayloadQuery): (r: CakeMutationResponse)
    ensures r.title == payload.title && r.description == payload.description
    ensures r.rating == payload.rating && r.image == payload.image
  {
    CakeMutationResponse(payload.title, payload.description, payload.rating, payload.image)
  }

  /** The echo of a create shows the same columns as a later read of the
      inserted row. */
  lemma EchoMatchesStoredRow(id: int, payload: CakePayloadQuery, now: Timestamp, formatLocal: Timestamp -> string)
    ensures var v := MapCakeDataResponse(NewRow(id, payload, now), formatLocal);
      Echo(payload) == CakeMutationResponse(v.title, v.description, v.rating, v.image)
  {
  }

  /** What GetDetailCake answers for table `rows`, given the lookup's fault.
      A fault is a 500 with the fault's text; a missing or soft-deleted id is
      a 404 with no error data; otherwise the view of the live row with that
      id, its fields copied unchanged. */
  function DetailOutcome(rows: seq<Cake>, id: int, fault: Option<string>, formatLocal: Timestamp -> string)
    : (r: Outcome<CakeResponse>)
    ensures fault.Some? ==> r == Failure(InternalError("error get cake data", fault.value))
    ensures fault.None? ==> (r.Failure? <==> forall c :: c in rows ==> c.id != id || c.deletedAt.Some?)
    ensures fault.None? && r.Failure? ==> r.error == NotFoundError(id)
    ensures r.Success? ==> FindVisible(rows, id).Some?
    ensures r.Success? ==>
      var c := FindVisible(rows, id).value;
      && c in rows && c.deletedAt.None?
      && r.value.id == c.id == id && r.value.title == c.title && r.value.description == c.description
      && r.value.rating == c.rating && r.value.image == c.image
      && r.value.createdAt == formatLocal(c.createdAt) && r.value.updatedAt == formatLocal(c.updatedAt)
  {
    FindVisibleNone(rows, id);
    if fault.Some? then Failure(InternalError("error get cake data", fault.value))
    else match FindVisible(rows, id)
      case None => Failure(NotFoundError(id))
      case Some(c) => Success(MapCakeDataResponse(c, formatLocal))
  }

  /** Listing a table with pageSize 1 from page 1 and one live row answers
      one page, one row in total, and that row's view (the case of
      internal/usecase/uc-cake_test.go). */
  lemma SingleRowPage(rows: seq<Cake>, formatLocal: Timestamp -> string)
    requires |Visible(rows)| == 1
    ensures GetPageCount(1, |Visible(rows)|) == 1
    ensures Window(Listing(rows), 1, Offset(1, 1)) == Visible(rows)
  {
    var v := Visible(rows);
    var s := Listing(rows);
    assert multiset(s) == multiset(v);
    assert |s| == 1;
    assert s[0] in multiset(v);
  }

  /** CakeUsecase, over the repository it was built with. Clock readings and
      store faults are parameters of each operation. */
  class CakeUsecase {
    const repo: CakeDBRepository
    const formatLocal: Timestamp -> string

    constructor (repo: CakeDBRepository, formatLocal: Timestamp -> string)
      ensures this.repo == repo && this.formatLocal == formatLocal
    {
      this.repo := repo;
      this.formatLocal := formatLocal;
    }

    /** GetDetailCake: the lookup by id, classified. */
    method GetDetailCake(id: int, fault: Option<string>) returns (r: Outcome<CakeResponse>)
      ensures r == DetailOutcome(repo.rows, id, fault, formatLocal)
    {
      var cake, err := repo.GetCake(id, fault);
      if err.Some? {
        return Failure(InternalError("error get cake data", err.value));
      }
      if cake.None? {
        return Failure(NotFoundError(id));
      }
      return Success(MapCakeDataResponse(cake.value, formatLocal));
    }

    /** UpdateCake: checks that a live row has the id, then updates it and
        echoes the payload. A failed check is returned as it is and the table
        is not touched; in particular a missing or soft-deleted id is a 404
        and the table stays unchanged. */
    method UpdateCake(id: int, payload: CakePayloadQuery, now: Timestamp, getFault: Option<string>,
                      updateFault: Option<string>) returns (r: Outcome<CakeMutationResponse>)
      requires repo.Valid()
      modifies repo
      ensures repo.Valid() && repo.nextId == old(repo.nextId)
      ensures DetailOutcome(old(repo.rows), id, getFault, formatLocal).Failure? ==>
        r == Failure(DetailOutcome(old(repo.rows), id, getFault, formatLocal).error) && repo.rows == old(repo.rows)
      ensures getFault.None? && FindVisible(old(repo.rows), id).None? ==>
        r == Failure(NotFoundError(id)) && repo.rows == old(repo.rows)
      ensures getFault.None? && FindVisible(old(repo.rows), id).Some? && updateFault.Some? ==>
        r == Failure(InternalError("error update cake data", updateFault.value)) && repo.rows == old(repo.rows)
      ensures getFault.None? && FindVisible(old(repo.rows), id).Some? && updateFault.None? ==>
        r == Success(Echo(payload)) && repo.rows == UpdatedRows(old(repo.rows), id, payload, now)
    {
      var detail := GetDetailCake(id, getFault);
      if detail.Failure? {
        return Failure(detail.error);
      }
      var err := repo.UpdateCake(id, payload, now, updateFault);
      if err.Some? {
        return Failure(InternalError("error update cake data", err.value));
      }
      return Success(Echo(payload));
    }

    /** DeleteCake: checks that a live row has the id, then soft-deletes it
        and answers the id. A failed check is returned as it is and the table
        is not touched. */
    method DeleteCake(id: int, now: Timestamp, getFault: Option<string>, deleteFault: Option<string>)
      returns (r: Outcome<CakeDeleteResponse>)
      requires repo.Valid()
      modifies repo
      ensures repo.Valid() && repo.nextId == old(repo.nextId)
      ensures DetailOutcome(old(repo.rows), id, getFault, formatLocal).Failure? ==>
        r == Failure(DetailOutcome(old(repo.rows), id, getFault, formatLocal).error) && repo.rows == old(repo.rows)
      ensures getFault.None? && FindVisible(old(repo.rows), id).None? ==>
        r == Failure(NotFoundError(id)) && repo.rows == old(repo.rows)
      ensures getFault.None? && FindVisible(old(repo.rows), id).Some? && deleteFault.Some? ==>
        r == Failure(InternalError("error delete cake data", deleteFault.value)) && repo.rows == old(repo.rows)
      ensures getFault.None? && FindVisible(old(repo.rows), id).Some? && deleteFault.None? ==>
        r == Success(CakeDeleteResponse(id)) && repo.rows == SoftDeletedRows(old(repo.rows), id, now)
    {
      var detail := GetDetailCake(id, getFault);
      if detail.Failure? {
        return Failure(detail.error);
      }
      var err := repo.SoftDeleteCake(id, now, deleteFault);
      if err.Some? {
        return Failure(InternalError("error delete cake data", err.value));
      }
      return Success(CakeDeleteResponse(id));
    }

    /** CreateCake: inserts the payload and echoes it; a store fault is a 500
        with the fault's text and leaves the table as it was. */
    method CreateCake(payload: CakePayloadQuery, now: Timestamp, fault: Option<string>)
      returns (r: Outcome<CakeMutationResponse>)
      requires repo.Valid()
      modifies repo
      ensures repo.Valid()
      ensures fault.Some? ==>
        r == Failure(InternalError("error add cake data", fault.value))
        && repo.rows == old(repo.rows) && repo.nextId == old(repo.nextId)
      ensures fault.None? ==>
        r == Success(Echo(payload))
        && repo.rows == old(repo.rows) + [NewRow(old(repo.nextId), payload, now)]
        && repo.nextId == old(repo.nextId) + 1
        && FindVisible(repo.rows, old(repo.nextId)) == Some(NewRow(old(repo.nextId), payload, now))
    {
      var err := repo.InsertCake(payload, now, fault);
      if err.Some? {
        return Failure(InternalError("error add cake data", err.value));
      }
      return Success(Echo(payload));
    }

    /** GetCakes: counts the live rows and fetches the requested page (one
        after the other here; concurrently in the service), then reports the
        fetch's failure first, the count's second, and otherwise the page
        metadata and the view of every fetched row, in order. */
    method GetCakes(param: GetCakesUsecaseParam, countFault: Option<string>, fetchFault: Option<string>)
      returns (r: Outcome<GetCakesResponse>)
      ensures fetchFault.Some? ==> r == Failure(InternalError("error on get data cakes", fetchFault.value))
      ensures fetchFault.None? && param.pageSize < 0 ==>
        r == Failure(InternalError("error on get data cakes", NegativeLimitError))
      ensures fetchFault.None? && param.pageSize >= 0 && countFault.Some? ==>
        r == Failure(InternalError("error on count total cakes", countFault.value))
      ensures fetchFault.None? && param.pageSize >= 0 && countFault.None? ==>
        && r.Success?
        && r.value.meta == MetaPagination(GetPageCount(param.pageSize, |Visible(repo.rows)|), |Visible(repo.rows)|)
        && var page := Window(Listing(repo.rows), param.pageSize, Offset(param.page, param.pageSize));
           && |r.value.data| == |page|
           && forall i :: 0 <= i < |page| ==> r.value.data[i] == MapCakeDataResponse(page[i], formatLocal)
    {
      var offset := 0;
      if param.page > 0 {
        offset := (param.page - 1) * param.pageSize;
      }
      var limit := param.pageSize;
      var totalData, errTotal := repo.CountCakes(countFault);
      var cakes, errCakes := repo.GetCakes(GetCakesQuery(limit, offset), fetchFault);
      if errCakes.Some? {
        return Failure(InternalError("error on get data cakes", errCakes.value));
      }
      if errTotal.Some? {
        return Failure(InternalError("error on count total cakes", errTotal.value));
      }
      var data := MapCakeDataResponses(cakes, formatLocal);
      return Success(GetCakesResponse(MetaPagination(GetPageCount(param.pageSize, totalData), totalData), data));
    }
  }
}
