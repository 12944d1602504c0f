/** api/accesos.py: the HTTP boundary of the access service. It validates the
    page parameters, derives `offset`/`limit` from them, and delegates. */
module AccesosApi {
  import opened Common
  import opened Schema
  import opened Primitives
  import opened Repositories
  import opened FaceRecognition
  import opened AccesoService

  /** FastAPI's answer to a query parameter outside its declared bounds. */
  const ValidationError: HttpError := HttpError(422, "Unprocessable Entity")

  const MaxPageSize: int := 100

  /** The `OFFSET`/`LIMIT` pair handed to the service. */
  datatype Slice = Slice(offset: nat, limit: nat)

  /** `offset = (page - 1) * page_size`. */
  function PageOffset(page: int, pageSize: int): nat
    requires page >= 1 && pageSize >= 1
  {
    (page - 1) * pageSize
  }

  /** `Query(1, ge=1)` and `Query(10, ge=1, le=100)`, then the offset of the
      requested page and `limit = page_size`. */
  function PageSlice(page: int, pageSize: int): (r: Result<Slice, HttpError>)
    ensures r.Success? <==> page >= 1 && 1 <= pageSize <= MaxPageSize
    ensures r.Failure? ==> r.error == ValidationError
    ensures r.Success? ==> r.value.limit == pageSize && r.value.offset == PageOffset(page, pageSize)
  {
    if page >= 1 && 1 <= pageSize <= MaxPageSize then Success(Slice(PageOffset(page, pageSize), pageSize))
    else Failure(ValidationError)
  }

  /** The offset is a non-negative multiple of the page size, the one that
      skips exactly the pages before the requested one. */
  lemma PageOffsetIsMultiple(page: int, pageSize: int)
    requires page >= 1 && 1 <= pageSize <= MaxPageSize
    ensures PageOffset(page, pageSize) % pageSize == 0
    ensures PageOffset(page, pageSize) / pageSize == page - 1
  {
    DivModUnique(PageOffset(page, pageSize), pageSize, page - 1, 0);
  }

  /** `obtener_accesos` over the service as written: the parameters are
      validated and then the service raises, so no listing is ever returned. */
  function ObtenerAccesosAsWritten(st: Store, parse: IsoParser, q: AccesoQuery, page: int, pageSize: int): (r: Result<MisboundListing, HttpError>)
    ensures r.Failure?
    ensures r.error.status == 422 <==> !(page >= 1 && 1 <= pageSize <= MaxPageSize)
    ensures r.error.status != 422 ==> r.error == UnhandledError
  {
    match PageSlice(page, pageSize)
    case Failure(e) => Failure(e)
    case Success(s) => GetAllAccesosAsWritten(st, parse, q, s.limit, s.offset, page, pageSize)
  }

  /** `obtener_accesos` over the corrected service: the requested window of
      the newest-first selection, with metadata computed from its size. */
  function ObtenerAccesos(st: Store, parse: IsoParser, q: AccesoQuery, page: int, pageSize: int): (r: Result<Listing, HttpError>)
    ensures r.Success? <==> page >= 1 && 1 <= pageSize <= MaxPageSize
    ensures r.Failure? ==> r.error == ValidationError
    ensures r.Success? ==>
      && |r.value.items| <= pageSize
      && r.value.pagination == Paginate(|Selected(st, ToFilter(parse, q))|, page, pageSize)
      && r.value.items == Window(Reverse(Selected(st, ToFilter(parse, q))), PageOffset(page, pageSize), pageSize)
  {
    match PageSlice(page, pageSize)
    case Failure(e) => Failure(e)
    case Success(s) =>
      Success(GetAllAccesos(st, parse, q, s.limit, s.offset, page, pageSize))
  }

  /** A page past the end: the offset comes from the requested page, so the
      items are empty, while the metadata reports the clamped last page. */
  lemma PagePastTheEnd(st: Store, parse: IsoParser, q: AccesoQuery, page: int, pageSize: int)
    requires 1 <= pageSize <= MaxPageSize
    requires var total := |Selected(st, ToFilter(parse, q))|;
      total > 0 && page > TotalPages(total, pageSize)
    ensures var r := ObtenerAccesos(st, parse, q, page, pageSize);
      var total := |Selected(st, ToFilter(parse, q))|;
      && r.Success?
      && PageOffset(page, pageSize) >= total
      && r.value.items == []
      && r.value.pagination.page == TotalPages(total, pageSize)
      && !r.value.pagination.hasNext
  {
    var total := |Selected(st, ToFilter(parse, q))|;
    var n := TotalPages(total, pageSize);
    TotalPagesIsCeiling(total, pageSize);
    MulMonotone(page - 1, n, pageSize);
  }

  /** Item `i` of a page is the row `i` places after the page's offset. */
  lemma ItemOfPage(st: Store, parse: IsoParser, q: AccesoQuery, page: int, pageSize: int, i: nat)
    requires page >= 1 && 1 <= pageSize <= MaxPageSize && i < pageSize
    requires PageOffset(page, pageSize) + i < |Selected(st, ToFilter(parse, q))|
    ensures var r := ObtenerAccesos(st, parse, q, page, pageSize);
      && r.Success?
      && i < |r.value.items|
      && r.value.items[i] == Reverse(Selected(st, ToFilter(parse, q)))[PageOffset(page, pageSize) + i]
  {
    WindowItem(Reverse(Selected(st, ToFilter(parse, q))), PageOffset(page, pageSize), pageSize, i);
  }

  /** Row `k` lies `k % page_size` places into page `k / page_size + 1`;
      with `ItemOfPage`, every row of the selection is served on that page. */
  lemma PageOfRow(k: nat, pageSize: int)
    requires pageSize >= 1
    ensures k / pageSize >= 0
    ensures PageOffset(k / pageSize + 1, pageSize) + k % pageSize == k && k % pageSize < pageSize
  {
    var d := k / pageSize;
    assert d + 1 - 1 == d;
    DivModSplit(k, pageSize);
  }

  /** The next page starts one page size further on. */
  lemma NextPageOffset(page: int, pageSize: int)
    requires page >= 1 && pageSize >= 1
    ensures PageOffset(page + 1, pageSize) == PageOffset(page, pageSize) + pageSize
  {
    MulDistrib(page, 1, pageSize);
  }

  /** Two consecutive pages of any ordered sequence are the two-page window
      at the first of them. */
  lemma PagesTile<T>(s: seq<T>, page: int, pageSize: int)
    requires page >= 1 && pageSize >= 1
    ensures Window(s, PageOffset(page, pageSize), pageSize) + Window(s, PageOffset(page + 1, pageSize), pageSize)
         == Window(s, PageOffset(page, pageSize), 2 * pageSize)
  {
    NextPageOffset(page, pageSize);
    WindowsTile(s, PageOffset(page, pageSize), pageSize, pageSize);
  }

  /** Consecutive pages neither skip nor repeat a row: page `p` followed by
      page `p + 1` is the window of two pages starting at page `p`. */
  lemma ConsecutivePagesTile(st: Store, parse: IsoParser, q: AccesoQuery, page: int, pageSize: int)
    requires page >= 1 && 1 <= pageSize <= MaxPageSize
    ensures var r1, r2 := ObtenerAccesos(st, parse, q, page, pageSize), ObtenerAccesos(st, parse, q, page + 1, pageSize);
      && r1.Success? && r2.Success?
      && r1.value.items + r2.value.items
         == Window(Reverse(Selected(st, ToFilter(parse, q))), PageOffset(page, pageSize), 2 * pageSize)
  {
    PagesTile(Reverse(Selected(st, ToFilter(parse, q))), page, pageSize);
  }

  /** Only permitted attempts are recorded: an attempt leaves the store as it
      was exactly when it is denied, on both the facial and the PIN route. */
  lemma StoreChangesExactlyOnGrant(st: Store, b: Biometrics, image: Bytes, pin: string, tipo: TipoAcceso, areaId: string, dispositivo: string, now: Timestamp)
    ensures var r := CreateFacialAccess(st, b, image, tipo, areaId, dispositivo, now);
      r.store == st <==> r.answer.Failure?
    ensures var r := CreatePinAccess(st, pin, tipo, areaId, dispositivo, now);
      r.store == st <==> r.answer.Failure?
  {
    var rf := CreateFacialAccess(st, b, image, tipo, areaId, dispositivo, now);
    if rf.answer.Success? {
      assert |rf.store.accesos| == |st.accesos| + 1;
    }
    var rp := CreatePinAccess(st, pin, tipo, areaId, dispositivo, now);
    if rp.answer.Success? {
      assert |rp.store.accesos| == |st.accesos| + 1;
    }
  }
}
