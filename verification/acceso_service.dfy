/** services/acceso_service.py: the paginated access listing and the two
    access decision trees (facial and PIN). An attempt is a pure function from
    the store and the request to the answer and the store afterwards; the
    clock reading `datetime.now(timezone.utc)` is a parameter. */
module AccesoService {
  import opened Common
  import opened Schema
  import opened Primitives
  import opened Repositories
  import opened FaceRecognition

  // ---------------------------------------------------------------------------
  // Pagination metadata
  // ---------------------------------------------------------------------------

  /** `total_pages`: `(total + page_size - 1) // page_size` for a positive page
      size, and 1 otherwise. */
  function TotalPages(total: nat, pageSize: int): (n: nat)
    ensures pageSize <= 0 ==> n == 1
    ensures pageSize > 0 ==> (n == 0 <==> total == 0)
  {
    if pageSize > 0 then (total + pageSize - 1) / pageSize else 1
  }

  /** For a positive page size the page count is the ceiling of
      `total / page_size`: the least count whose pages hold every row. */
  lemma TotalPagesIsCeiling(total: nat, pageSize: int)
    requires pageSize > 0
    ensures var n := TotalPages(total, pageSize);
      n * pageSize >= total && (n - 1) * pageSize < total
  {
    var n := TotalPages(total, pageSize);
    DivModSplit(total + pageSize - 1, pageSize);
    MulDistrib(n, 1, pageSize);
  }

  /** `current_page`: the requested page clamped into `[1, total_pages]`, and 1
      when there are no pages. */
  function CurrentPage(page: int, totalPages: nat): (p: int)
    ensures 1 <= p
    ensures totalPages > 0 ==> p <= totalPages
    ensures totalPages > 0 && 1 <= page <= totalPages ==> p == page
    ensures totalPages > 0 && page > totalPages ==> p == totalPages
    ensures page < 1 || totalPages == 0 ==> p == 1
  {
    if totalPages > 0 then (if page < 1 then 1 else if page > totalPages then totalPages else page) else 1
  }

  /** `PaginationMetadata`. */
  datatype PageMeta = PageMeta(total: nat, page: int, pageSize: int, totalPages: nat, hasPrevious: bool, hasNext: bool)

  /** The pagination dictionary `get_all_accesos` builds from `total`. */
  function Paginate(total: nat, page: int, pageSize: int): (m: PageMeta)
    ensures m.total == total && m.pageSize == pageSize
    ensures m.totalPages == TotalPages(total, pageSize)
    ensures m.page == CurrentPage(page, m.totalPages)
    ensures m.hasPrevious <==> page > 1 && m.totalPages > 1
    ensures m.hasNext <==> m.page < m.totalPages
  {
    var n := TotalPages(total, pageSize);
    var p := CurrentPage(page, n);
    PageMeta(total, p, pageSize, n, p > 1, p < n)
  }

  /** With a positive page size, a next page is reported exactly when rows
      remain after the reported page. */
  lemma HasNextIffRowsRemain(total: nat, page: int, pageSize: int)
    requires pageSize > 0
    ensures var m := Paginate(total, page, pageSize);
      m.hasNext <==> m.page * pageSize < total
  {
    var m := Paginate(total, page, pageSize);
    var n, p := m.totalPages, m.page;
    TotalPagesIsCeiling(total, pageSize);
    if p < n {
      MulMonotone(n - 1, p, pageSize);
    } else {
      MulMonotone(p, n, pageSize);
    }
  }

  /** The reported page is never empty: it starts before the last row. */
  lemma ReportedPageIsOccupied(total: nat, page: int, pageSize: int)
    requires pageSize > 0 && total > 0
    ensures var m := Paginate(total, page, pageSize);
      (m.page - 1) * pageSize < total
  {
    var m := Paginate(total, page, pageSize);
    var n, p := m.totalPages, m.page;
    TotalPagesIsCeiling(total, pageSize);
    MulMonotone(n - 1, p - 1, pageSize);
  }

  /** 25 rows in pages of 10, asking for page 10: page 3 of 3, nothing next. */
  lemma PastTheEndExample()
    ensures Paginate(25, 10, 10) == PageMeta(25, 3, 10, 3, true, false)
  {
    assert TotalPages(25, 10) == 3;
  }

  // ---------------------------------------------------------------------------
  // The listing
  // ---------------------------------------------------------------------------

  /** The query-string arguments of the listing before date parsing. */
  datatype AccesoQuery = AccesoQuery(
    empleadoId: Option<int>,
    areaId: Option<string>,
    tipoAcceso: Option<string>,
    fechaInicio: Option<string>,
    fechaFin: Option<string>)

  /** `datetime.fromisoformat`, left abstract: `None` where it raises. */
  type IsoParser = string -> Option<Timestamp>

  /** A date string that does not parse is replaced by `None`, so it filters nothing. */
  function ParseDate(parse: IsoParser, s: Option<string>): (r: Option<Timestamp>)
    ensures s.None? ==> r.None?
    ensures s.Some? && parse(s.value).None? ==> r.None?
    ensures r.Some? ==> s.Some? && parse(s.value) == r
  {
    match s
    case None => None
    case Some(text) => parse(text)
  }

  function ToFilter(parse: IsoParser, q: AccesoQuery): AccesoFilter
  {
    AccesoFilter(q.empleadoId, q.areaId, q.tipoAcceso, ParseDate(parse, q.fechaInicio), ParseDate(parse, q.fechaFin))
  }

  /** A paginated answer: `{"items": ..., "pagination": ...}`. */
  datatype Listing = Listing(items: seq<AccesoRow>, pagination: PageMeta)

  /** Python's `accesos, total = value` on the list the repository returns:
      the two elements when there are exactly two, `None` (a `ValueError`)
      otherwise. */
  function UnpackPair<T>(xs: seq<T>): (r: Option<(T, T)>)
    ensures r.Some? <==> |xs| == 2
    ensures r.Some? ==> r.value.0 == xs[0] && r.value.1 == xs[1]
  {
    if |xs| == 2 then Some((xs[0], xs[1])) else None
  }

  /** What `get_all_accesos` as written returns when it does not raise:
      `accesos` is bound to the first row and `total` to the second, so the
      metadata carries a row where a count was meant. */
  datatype MisboundListing = MisboundListing(
    items: AccesoRow, total: AccesoRow, page: int, pageSize: int, totalPages: nat, hasPrevious: bool, hasNext: bool)

  /** `get_all_accesos` as written: it unpacks the repository's list of rows
      into `accesos, total`. For a positive page size the call raises before
      any metadata is built; for a non-positive one the page count is 1
      without touching `total`, so a window of exactly two rows comes back
      misbound. */
  function GetAllAccesosAsWritten(st: Store, parse: IsoParser, q: AccesoQuery, limit: nat, offset: nat, page: int, pageSize: int): (r: Result<MisboundListing, HttpError>)
    ensures r.Failure? ==> r.error == UnhandledError
    ensures pageSize >= 1 ==> r.Failure?
    ensures r.Success? <==> pageSize <= 0 && |GetAllWithEmployeeInfo(st, ToFilter(parse, q), limit, offset)| == 2
    ensures r.Success? ==>
      var rows := GetAllWithEmployeeInfo(st, ToFilter(parse, q), limit, offset);
      && r.value.items == rows[0] && r.value.total == rows[1]
      && r.value.page == 1 && r.value.pageSize == pageSize && r.value.totalPages == 1
      && !r.value.hasPrevious && !r.value.hasNext
  {
    var rows := GetAllWithEmployeeInfo(st, ToFilter(parse, q), limit, offset);
    match UnpackPair(rows)
    case None => Failure(UnhandledError)
    case Some((accesos, total)) =>
      // `total + page_size - 1` on a row dictionary raises `TypeError`.
      if pageSize > 0 then Failure(UnhandledError)
      else
        var totalPages := 1;
        var p := CurrentPage(page, totalPages);
        Success(MisboundListing(accesos, total, p, pageSize, totalPages, p > 1, p < totalPages))
  }

  /** `get_all_accesos` as evidently intended: `total` counts every row that
      passes the join and the filters, and the items are the requested window
      of them, newest first. */
  function GetAllAccesos(st: Store, parse: IsoParser, q: AccesoQuery, limit: nat, offset: nat, page: int, pageSize: int): (r: Listing)
    ensures r.pagination.total == |Selected(st, ToFilter(parse, q))|
    ensures r.pagination == Paginate(|Selected(st, ToFilter(parse, q))|, page, pageSize)
    ensures |r.items| <= limit
    ensures r.items == Window(Reverse(Selected(st, ToFilter(parse, q))), offset, limit)
    ensures forall i :: 0 <= i < |r.items| ==>
      r.items[i].acceso in st.accesos && MatchesFilter(r.items[i].acceso, ToFilter(parse, q))
  {
    var f := ToFilter(parse, q);
    Listing(GetAllWithEmployeeInfo(st, f, limit, offset), Paginate(|Selected(st, f)|, page, pageSize))
  }

  /** One area, one employee, one access by that employee. */
  const OneAccessStore: Store := Store(
    [Area("AREA001", "Produccion", "Planta", "Activo")],
    [Empleado(1, "Ana", "Paz", "30111222", "1990-01-01", "ana@pyme.test", Operario, Activo,
              "AREA001", Some("1234"), None, None, None, "activo", "2024-01-01T00:00:00+00:00")],
    [Acceso(1, Some(1), "AREA001", 0, Ingreso, Pin, "Dispositivo1", Some(1.0), Permitido)],
    2, 2)

  const NoFilters: AccesoQuery := AccesoQuery(None, None, None, None, None)

  /** The discrepancy on a concrete store: the first page of ten holds the one
      access and reports a total of one, while the code as written answers 500. */
  lemma ListingCounterexample(parse: IsoParser)
    ensures GetAllAccesosAsWritten(OneAccessStore, parse, NoFilters, 10, 0, 1, 10) == Failure(UnhandledError)
    ensures var r := GetAllAccesos(OneAccessStore, parse, NoFilters, 10, 0, 1, 10);
      |r.items| == 1 && r.items[0].acceso == OneAccessStore.accesos[0]
      && r.pagination == PageMeta(1, 1, 10, 1, false, false)
  {
    var st, f := OneAccessStore, ToFilter(parse, NoFilters);
    var a := st.accesos[0];
    assert HasEmpleado(st.empleados, 1) by {
      assert st.empleados[0].empleadoId == 1;
    }
    assert Kept(st.empleados, f, a);
    assert KeptAccesos(st, f) == [a] by {
      assert Filter(st.accesos, x => Kept(st.empleados, f, x))
          == [a] + Filter(st.accesos[1..], x => Kept(st.empleados, f, x));
    }
    assert TotalPages(1, 10) == 1;
  }

  /** An unparseable date string is dropped: the listing is the one without it. */
  lemma UnparseableDateIgnored(st: Store, parse: IsoParser, q: AccesoQuery, limit: nat, offset: nat, page: int, pageSize: int)
    requires q.fechaInicio.Some? ==> parse(q.fechaInicio.value).None?
    requires q.fechaFin.Some? ==> parse(q.fechaFin.value).None?
    ensures GetAllAccesos(st, parse, q, limit, offset, page, pageSize)
         == GetAllAccesos(st, parse, q.(fechaInicio := None, fechaFin := None), limit, offset, page, pageSize)
  {
    assert ToFilter(parse, q) == ToFilter(parse, q.(fechaInicio := None, fechaFin := None));
  }

  // ---------------------------------------------------------------------------
  // Access attempts
  // ---------------------------------------------------------------------------

  /** The `"empleado"` part of a granted answer. */
  datatype EmpleadoSummary = EmpleadoSummary(id: int, nombre: string, apellido: string, rol: Rol)

  /** A granted answer. The facial one reports the confidence; the PIN one
      reports the method instead. */
  datatype AccessGranted = AccessGranted(
    message: string,
    empleado: EmpleadoSummary,
    areaId: string,
    tipoAcceso: TipoAcceso,
    metodoAcceso: Option<MetodoAcceso>,
    confianza: Option<real>)

  function SummaryOf(e: Empleado): EmpleadoSummary
  {
    EmpleadoSummary(e.empleadoId, e.nombre, e.apellido, e.rol)
  }

  const NotRecognized: HttpError := HttpError(403, "Empleado no reconocido")
  const PinRejected: HttpError := HttpError(403, "PIN incorrecto o empleado no tiene acceso a esta área")
  const NotActive: HttpError := HttpError(403, "Empleado no está activo en el sistema")
  const InternalErrorPrefix: string := "Error interno del servidor: "

  function WrongArea(e: Empleado, areaId: string): HttpError
  {
    HttpError(403, "Empleado " + e.nombre + " " + e.apellido + " no tiene acceso al área " + areaId)
  }

  /** A non-HTTP exception caught by the service and re-raised as a 500. */
  function InternalError(e: RecognitionError): (h: HttpError)
    ensures h.status == 500 && StartsWith(h.detail, InternalErrorPrefix)
  {
    match e
    case NoFaceDetected => HttpError(500, InternalErrorPrefix + "No se detectó rostro en la imagen")
    case UnreadableTemplate => HttpError(500, InternalErrorPrefix)
  }

  /** One attempt: the answer and the store after it. */
  datatype Attempt = Attempt(answer: Result<AccessGranted, HttpError>, store: Store)

  /** The candidates the facial path compares against. */
  function Candidates(st: Store): seq<Empleado>
  {
    GetWithBiometricData(st.empleados)
  }

  /** `create_facial_access`. A face that is not found or a template that does
      not read gives 500; no match or a match in another area gives 403 and
      records nothing; a match in the requested area records exactly one
      permitted facial access with the matcher's confidence. */
  function CreateFacialAccess(st: Store, b: Biometrics, image: Bytes, tipo: TipoAcceso, areaId: string, dispositivo: string, now: Timestamp): (r: Attempt)
    ensures r.answer.Failure? ==> r.store == st
    ensures |b.detect(image)| == 0 ==> r.answer == Failure(InternalError(NoFaceDetected))
    ensures r.answer.Failure? && r.answer.error.status != 500 ==>
      r.answer == Failure(NotRecognized) || exists e :: e in st.empleados && e.areaId != areaId && r.answer == Failure(WrongArea(e, areaId))
    ensures var rec := Recognize(b, DefaultThreshold, image, Candidates(st));
      && (rec.Failure? ==> r.answer == Failure(InternalError(rec.error)))
      && (rec == Success(NoMatch) ==> r.answer == Failure(NotRecognized))
      && (rec.Success? && rec.value.Match? && rec.value.empleado.areaId != areaId ==>
            r.answer == Failure(WrongArea(rec.value.empleado, areaId)))
      && (rec.Success? && rec.value.Match? && rec.value.empleado.areaId == areaId ==> r.answer.Success?)
    ensures r.answer.Failure? && r.answer.error.status == 500 ==>
      Recognize(b, DefaultThreshold, image, Candidates(st)).Failure?
    ensures r.answer.Success? ==>
      var rec := Recognize(b, DefaultThreshold, image, Candidates(st));
      && rec.Success? && rec.value.Match?
      && var e := rec.value.empleado;
         && e in st.empleados && e.datosBiometricos.Some? && e.areaId == areaId
         && r.answer.value.empleado == SummaryOf(e)
         && r.answer.value.confianza == Some(rec.value.confidence)
         && r.store.accesos == st.accesos + [Acceso(st.nextAccesoId, Some(e.empleadoId), areaId, now, tipo, Facial, dispositivo, Some(rec.value.confidence), Permitido)]
         && r.store.empleados == st.empleados && r.store.areas == st.areas
  {
    match Recognize(b, DefaultThreshold, image, Candidates(st))
    case Failure(err) => Attempt(Failure(InternalError(err)), st)
    case Success(NoMatch) => Attempt(Failure(NotRecognized), st)
    case Success(Match(_, e, confianza)) =>
      if e.areaId != areaId then Attempt(Failure(WrongArea(e, areaId)), st)
      else
        var record := Acceso(0, Some(e.empleadoId), areaId, now, tipo, Facial, dispositivo, Some(confianza), Permitido);
        var message := "Acceso " + TipoAccesoValue(tipo) + " registrado correctamente";
        Attempt(Success(AccessGranted(message, SummaryOf(e), areaId, tipo, None, Some(confianza))), CreateAcceso(st, record))
  }

  /** `create_pin_access`. No employee with this PIN in this area, or a first
      such employee that is not `Activo`, gives 403 and records nothing;
      otherwise exactly one permitted PIN access with confidence 1.0 is recorded. */
  function CreatePinAccess(st: Store, pin: string, tipo: TipoAcceso, areaId: string, dispositivo: string, now: Timestamp): (r: Attempt)
    ensures r.answer.Failure? ==> r.store == st
    ensures r.answer.Failure? ==> r.answer.error == PinRejected || r.answer.error == NotActive
    ensures r.answer == Failure(PinRejected) <==>
      forall i :: 0 <= i < |st.empleados| ==> !(st.empleados[i].pin == Some(pin) && st.empleados[i].areaId == areaId)
    ensures r.answer.Success? <==>
      GetByPinAndArea(st.empleados, pin, areaId).Some? && GetByPinAndArea(st.empleados, pin, areaId).value.estadoEmpleado == Activo
    ensures r.answer.Success? ==>
      var e := GetByPinAndArea(st.empleados, pin, areaId).value;
      && r.answer.value.empleado == SummaryOf(e)
      && r.answer.value.metodoAcceso == Some(Pin)
      && r.store.accesos == st.accesos + [Acceso(st.nextAccesoId, Some(e.empleadoId), areaId, now, tipo, Pin, dispositivo, Some(1.0), Permitido)]
      && r.store.empleados == st.empleados && r.store.areas == st.areas
  {
    match GetByPinAndArea(st.empleados, pin, areaId)
    case None => Attempt(Failure(PinRejected), st)
    case Some(e) =>
      if e.estadoEmpleado != Activo then Attempt(Failure(NotActive), st)
      else
        var record := Acceso(0, Some(e.empleadoId), areaId, now, tipo, Pin, dispositivo, Some(1.0), Permitido);
        var message := "Acceso " + TipoAccesoValue(tipo) + " por PIN registrado correctamente";
        Attempt(Success(AccessGranted(message, SummaryOf(e), areaId, tipo, Some(Pin), None)), CreateAcceso(st, record))
  }

  /** Recording a permitted access for an employee of the store, in that
      employee's own area, keeps the store consistent. */
  lemma RecordingGrantPreservesValid(st: Store, e: Empleado, a: Acceso)
    requires Valid(st) && e in st.empleados
    requires a.empleadoId == Some(e.empleadoId) && a.areaId == e.areaId
    ensures Valid(CreateAcceso(st, a))
  {
    var st' := CreateAcceso(st, a);
    var k :| 0 <= k < |st.empleados| && st.empleados[k] == e;
    assert HasEmpleado(st.empleados, e.empleadoId);
    assert AreaExists(st.areas, st.empleados[k].areaId);
    var n := |st.accesos|;
    assert forall i :: 0 <= i < n ==> st'.accesos[i] == st.accesos[i];
  }

  lemma FacialAccessPreservesValid(st: Store, b: Biometrics, image: Bytes, tipo: TipoAcceso, areaId: string, dispositivo: string, now: Timestamp)
    requires Valid(st)
    ensures Valid(CreateFacialAccess(st, b, image, tipo, areaId, dispositivo, now).store)
  {
    var r := CreateFacialAccess(st, b, image, tipo, areaId, dispositivo, now);
    if r.answer.Success? {
      var m := Recognize(b, DefaultThreshold, image, Candidates(st)).value;
      RecordingGrantPreservesValid(st, m.empleado,
        Acceso(0, Some(m.empleado.empleadoId), areaId, now, tipo, Facial, dispositivo, Some(m.confidence), Permitido));
    }
  }

  lemma PinAccessPreservesValid(st: Store, pin: string, tipo: TipoAcceso, areaId: string, dispositivo: string, now: Timestamp)
    requires Valid(st)
    ensures Valid(CreatePinAccess(st, pin, tipo, areaId, dispositivo, now).store)
  {
    var r := CreatePinAccess(st, pin, tipo, areaId, dispositivo, now);
    if r.answer.Success? {
      var e := GetByPinAndArea(st.empleados, pin, areaId).value;
      RecordingGrantPreservesValid(st, e, Acceso(0, Some(e.empleadoId), areaId, now, tipo, Pin, dispositivo, Some(1.0), Permitido));
    }
  }

  /** Two employee tables that differ at most in the state columns
      (`EstadoEmpleado` and `estado`). */
  ghost predicate SameExceptState(s: seq<Empleado>, t: seq<Empleado>)
  {
    && |s| == |t|
    && forall i :: 0 <= i < |s| ==> s[i] == t[i].(estadoEmpleado := s[i].estadoEmpleado, estado := s[i].estado)
  }

  lemma SameExceptStateAppend(a: seq<Empleado>, b: seq<Empleado>, c: seq<Empleado>, d: seq<Empleado>)
    requires SameExceptState(a, c) && SameExceptState(b, d)
    ensures SameExceptState(a + b, c + d)
  {
    forall i | 0 <= i < |a + b|
      ensures (a + b)[i] == (c + d)[i].(estadoEmpleado := (a + b)[i].estadoEmpleado, estado := (a + b)[i].estado)
    {
      if i < |a| {
        assert (a + b)[i] == a[i] && (c + d)[i] == c[i];
      } else {
        assert (a + b)[i] == b[i - |a|] && (c + d)[i] == d[i - |a|];
      }
    }
  }

  lemma SameExceptStateTail(s: seq<Empleado>, t: seq<Empleado>)
    requires SameExceptState(s, t) && |s| > 0
    ensures SameExceptState(s[1..], t[1..])
  {
    forall i | 0 <= i < |s| - 1
      ensures s[1..][i] == t[1..][i].(estadoEmpleado := s[1..][i].estadoEmpleado, estado := s[1..][i].estado)
    {
      assert s[1..][i] == s[i + 1] && t[1..][i] == t[i + 1];
    }
  }

  lemma {:induction false} CandidatesSameExceptState(s: seq<Empleado>, t: seq<Empleado>)
    requires SameExceptState(s, t)
    ensures SameExceptState(GetWithBiometricData(s), GetWithBiometricData(t))
  {
    if |s| > 0 {
      SameExceptStateTail(s, t);
      CandidatesSameExceptState(s[1..], t[1..]);
      assert s[0] == t[0].(estadoEmpleado := s[0].estadoEmpleado, estado := s[0].estado);
      var hs := if HasTemplate(s[0]) then [s[0]] else [];
      var ht := if HasTemplate(t[0]) then [t[0]] else [];
      assert SameExceptState(hs, ht);
      SameExceptStateAppend(hs, Filter(s[1..], HasTemplate), ht, Filter(t[1..], HasTemplate));
      assert Filter(s, HasTemplate) == hs + Filter(s[1..], HasTemplate);
      assert Filter(t, HasTemplate) == ht + Filter(t[1..], HasTemplate);
    }
  }

  /** Recognition over candidates that differ only in state answers alike,
      up to the state of the matched row. */
  lemma RecognizeIgnoresState(b: Biometrics, image: Bytes, c1: seq<Empleado>, c2: seq<Empleado>)
    requires SameExceptState(c1, c2)
    ensures var r1, r2 := Recognize(b, DefaultThreshold, image, c1), Recognize(b, DefaultThreshold, image, c2);
      && (r1.Failure? <==> r2.Failure?)
      && (r1.Failure? ==> r1.error == r2.error)
      && (r1.Success? ==> (r1.value.NoMatch? <==> r2.value.NoMatch?))
      && (r1.Success? && r1.value.Match? ==>
            && r1.value.confidence == r2.value.confidence
            && r1.value.empleado == r2.value.empleado.(estadoEmpleado := r1.value.empleado.estadoEmpleado, estado := r1.value.empleado.estado))
  {
    if |b.detect(image)| > 0 {
      var probe := b.detect(image)[0];
      assert SameTemplates(c1, c2) by {
        forall i | 0 <= i < |c1|
          ensures c1[i].datosBiometricos == c2[i].datosBiometricos
        {
          assert c1[i] == c2[i].(estadoEmpleado := c1[i].estadoEmpleado, estado := c1[i].estado);
        }
      }
      MatchReadsOnlyTemplates(b, DefaultThreshold, probe, c1, c2);
    }
  }

  /** The facial path never consults employee state: stores that differ only
      in it give the same answer and record the same accesses. */
  lemma FacialIgnoresEmployeeState(st: Store, st2: Store, b: Biometrics, image: Bytes, tipo: TipoAcceso, areaId: string, dispositivo: string, now: Timestamp)
    requires SameExceptState(st.empleados, st2.empleados)
    requires st2 == st.(empleados := st2.empleados)
    ensures CreateFacialAccess(st, b, image, tipo, areaId, dispositivo, now).answer
         == CreateFacialAccess(st2, b, image, tipo, areaId, dispositivo, now).answer
    ensures CreateFacialAccess(st, b, image, tipo, areaId, dispositivo, now).store.accesos
         == CreateFacialAccess(st2, b, image, tipo, areaId, dispositivo, now).store.accesos
  {
    CandidatesSameExceptState(st.empleados, st2.empleados);
    RecognizeIgnoresState(b, image, Candidates(st), Candidates(st2));
  }

  /** The PIN path grants only to an employee that holds this PIN in this area
      and is `Activo`. */
  lemma PinGrantRequiresActiveHolder(st: Store, pin: string, tipo: TipoAcceso, areaId: string, dispositivo: string, now: Timestamp)
    ensures var r := CreatePinAccess(st, pin, tipo, areaId, dispositivo, now);
      r.answer.Success? ==>
        exists k :: 0 <= k < |st.empleados| && st.empleados[k].pin == Some(pin) && st.empleados[k].areaId == areaId
          && st.empleados[k].estadoEmpleado == Activo && st.empleados[k].empleadoId == r.answer.value.empleado.id
  {
    var r := CreatePinAccess(st, pin, tipo, areaId, dispositivo, now);
    if r.answer.Success? {
      var e := GetByPinAndArea(st.empleados, pin, areaId).value;
      var k :| 0 <= k < |st.empleados| && st.empleados[k] == e;
    }
  }

  /** Every granted attempt appends exactly one record, permitted, and every
      denied one appends none. */
  lemma OnlyGrantsAreRecorded(st: Store, b: Biometrics, image: Bytes, pin: string, tipo: TipoAcceso, areaId: string, dispositivo: string, now: Timestamp)
    ensures var r := CreateFacialAccess(st, b, image, tipo, areaId, dispositivo, now);
      |r.store.accesos| == |st.accesos| + (if r.answer.Success? then 1 else 0)
      && (r.answer.Success? ==> r.store.accesos[|st.accesos|].accesoPermitido == Permitido)
    ensures var r := CreatePinAccess(st, pin, tipo, areaId, dispositivo, now);
      |r.store.accesos| == |st.accesos| + (if r.answer.Success? then 1 else 0)
      && (r.answer.Success? ==> r.store.accesos[|st.accesos|].accesoPermitido == Permitido)
  {
  }
}
