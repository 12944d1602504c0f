/** main.py: the legacy handlers, which run raw SQL against the legacy schema
    of database.py. An access row there carries two nullable timestamps
    (`FechaHoraIngreso`, `FechaHoraEgreso`), security notes and a denial
    reason. The handlers repeat the service's decision trees with one
    difference: a picture without a face is a 400, not a 500. */
module LegacyApi {
  import opened Common
  import opened Schema
  import opened Primitives
  import opened Repositories
  import opened FaceRecognition
  import opened AccesoService

  /** `MetodoAccesoEnum` of database.py, which adds `Manual`. */
  datatype LegacyMetodo = LegacyFacial | LegacyPin | Manual

  /** One row of the legacy `accesos` table. Timestamps are the ISO strings
      `datetime.now().isoformat()` produces. */
  datatype LegacyAcceso = LegacyAcceso(
    accesoId: int,
    empleadoId: Option<int>,
    areaId: string,
    fechaHoraIngreso: Option<string>,
    fechaHoraEgreso: Option<string>,
    tipoAcceso: TipoAcceso,
    metodoAcceso: LegacyMetodo,
    dispositivo: string,
    confianza: Option<real>,
    observaciones: Option<string>,
    accesoPermitido: string,
    motivoDenegacion: Option<string>)

  datatype LegacyStore = LegacyStore(empleados: seq<Empleado>, accesos: seq<LegacyAcceso>, nextAccesoId: int)

  datatype LegacyAttempt = LegacyAttempt(answer: Result<AccessGranted, HttpError>, store: LegacyStore)

  const NoFace: HttpError := HttpError(400, "No se detectó rostro en la imagen")

  /** `INSERT INTO accesos`: the row gets the next key. */
  function Insert(st: LegacyStore, a: LegacyAcceso): LegacyStore
  {
    st.(accesos := st.accesos + [a.(accesoId := st.nextAccesoId)], nextAccesoId := st.nextAccesoId + 1)
  }

  /** The permitted row both legacy routes insert: exactly one of the two
      timestamps is set, the one the access type names. */
  function GrantRecord(e: Empleado, areaId: string, tipo: TipoAcceso, metodo: LegacyMetodo, dispositivo: string,
                       confianza: real, observaciones: Option<string>, now: string): (a: LegacyAcceso)
    ensures a.fechaHoraIngreso.Some? <==> tipo == Ingreso
    ensures a.fechaHoraEgreso.Some? <==> tipo == Egreso
    ensures a.fechaHoraIngreso.Some? ==> a.fechaHoraIngreso.value == now
    ensures a.fechaHoraEgreso.Some? ==> a.fechaHoraEgreso.value == now
    ensures a.empleadoId == Some(e.empleadoId) && a.areaId == areaId
    ensures a.accesoPermitido == Permitido && a.motivoDenegacion.None?
  {
    var ingreso := if tipo == Ingreso then Some(now) else None;
    var egreso := if tipo == Egreso then Some(now) else None;
    LegacyAcceso(0, Some(e.empleadoId), areaId, ingreso, egreso, tipo, metodo, dispositivo,
                 Some(confianza), observaciones, Permitido, None)
  }

  /** `crear_acceso`: 400 without a face; then the inline matcher (threshold
      0.6, strict `<`, running minimum, confidence `1 - distance`) over the
      employees with a template; 403 for no match or another area, with no
      row written; otherwise one permitted facial row. */
  function CrearAcceso(st: LegacyStore, b: Biometrics, image: Bytes, tipo: TipoAcceso, areaId: string,
                       dispositivo: string, observaciones: Option<string>, now: string): (r: LegacyAttempt)
    ensures r.answer.Failure? ==> r.store == st
    ensures r.answer == Failure(NoFace) <==> |b.detect(image)| == 0
    ensures |b.detect(image)| > 0 ==>
      var m := CompareFaces(b, DefaultThreshold, b.detect(image)[0], GetWithBiometricData(st.empleados));
      && (m.Failure? ==> r.answer == Failure(InternalError(m.error)))
      && (m == Success(NoMatch) ==> r.answer == Failure(NotRecognized))
      && (m.Success? && m.value.Match? && m.value.empleado.areaId != areaId ==>
            r.answer == Failure(WrongArea(m.value.empleado, areaId)))
      && (m.Success? && m.value.Match? && m.value.empleado.areaId == areaId ==> r.answer.Success?)
    ensures r.answer.Success? ==>
      var m := CompareFaces(b, DefaultThreshold, b.detect(image)[0], GetWithBiometricData(st.empleados));
      && m.Success? && m.value.Match? && m.value.empleado.areaId == areaId
      && r.answer.value.confianza == Some(m.value.confidence)
      && r.store.empleados == st.empleados
      && r.store.nextAccesoId == st.nextAccesoId + 1
      && |r.store.accesos| == |st.accesos| + 1
      && r.store.accesos[..|st.accesos|] == st.accesos
      && r.store.accesos[|st.accesos|]
         == GrantRecord(m.value.empleado, areaId, tipo, LegacyFacial, dispositivo, m.value.confidence, observaciones, now).(accesoId := st.nextAccesoId)
  {
    var faces := b.detect(image);
    if |faces| == 0 then LegacyAttempt(Failure(NoFace), st)
    else
      match CompareFaces(b, DefaultThreshold, faces[0], GetWithBiometricData(st.empleados))
      case Failure(err) => LegacyAttempt(Failure(InternalError(err)), st)
      case Success(NoMatch) => LegacyAttempt(Failure(NotRecognized), st)
      case Success(Match(_, e, confianza)) =>
        if e.areaId != areaId then LegacyAttempt(Failure(WrongArea(e, areaId)), st)
        else
          var message := "Acceso " + TipoAccesoValue(tipo) + " registrado correctamente";
          var row := GrantRecord(e, areaId, tipo, LegacyFacial, dispositivo, confianza, observaciones, now);
          LegacyAttempt(Success(AccessGranted(message, SummaryOf(e), areaId, tipo, None, Some(confianza))), Insert(st, row))
  }

  /** The `SERIAL` key of the legacy `accesos` table: keys ascend in table
      order and stay below the next value of the sequence. An empty table
      satisfies it, and every legacy writer keeps it. */
  ghost predicate LegacyKeysAscending(st: LegacyStore)
  {
    && IncreasingBy(st.accesos, LegacyKey)
    && (forall i :: 0 <= i < |st.accesos| ==> st.accesos[i].accesoId < st.nextAccesoId)
  }

  /** Appending a row that takes the next key keeps the keys ascending. */
  lemma AppendNextKeepsKeysAscending(st: LegacyStore, st': LegacyStore)
    requires LegacyKeysAscending(st)
    requires |st'.accesos| == |st.accesos| + 1 && st'.accesos[..|st.accesos|] == st.accesos
    requires st'.accesos[|st.accesos|].accesoId == st.nextAccesoId
    requires st'.nextAccesoId == st.nextAccesoId + 1
    ensures LegacyKeysAscending(st')
  {
  }

  /** A facial attempt keeps the keys of the table ascending. */
  lemma CrearAccesoKeepsKeysAscending(st: LegacyStore, b: Biometrics, image: Bytes, tipo: TipoAcceso, areaId: string,
                                      dispositivo: string, observaciones: Option<string>, now: string)
    requires LegacyKeysAscending(st)
    ensures LegacyKeysAscending(CrearAcceso(st, b, image, tipo, areaId, dispositivo, observaciones, now).store)
  {
    var r := CrearAcceso(st, b, image, tipo, areaId, dispositivo, observaciones, now);
    if r.answer.Success? {
      AppendNextKeepsKeysAscending(st, r.store);
    }
  }

  /** A PIN attempt keeps the keys of the table ascending. */
  lemma CrearAccesoPinKeepsKeysAscending(st: LegacyStore, pin: string, tipo: TipoAcceso, areaId: string,
                                         dispositivo: string, observaciones: Option<string>, now: string)
    requires LegacyKeysAscending(st)
    ensures LegacyKeysAscending(CrearAccesoPin(st, pin, tipo, areaId, dispositivo, observaciones, now).store)
  {
    var r := CrearAccesoPin(st, pin, tipo, areaId, dispositivo, observaciones, now);
    if r.answer.Success? {
      AppendNextKeepsKeysAscending(st, r.store);
    }
  }

  /** The legacy facial route decides exactly as the service does, except
      that a picture without a face is a 400 there and a 500 in the service. */
  lemma FacialRoutesAgree(st: Store, lst: LegacyStore, b: Biometrics, image: Bytes, tipo: TipoAcceso, areaId: string,
                          dispositivo: string, observaciones: Option<string>, now: Timestamp, lnow: string)
    requires lst.empleados == st.empleados
    ensures |b.detect(image)| == 0 ==>
      && CrearAcceso(lst, b, image, tipo, areaId, dispositivo, observaciones, lnow).answer.error.status == 400
      && CreateFacialAccess(st, b, image, tipo, areaId, dispositivo, now).answer.error.status == 500
    ensures |b.detect(image)| > 0 ==>
      CrearAcceso(lst, b, image, tipo, areaId, dispositivo, observaciones, lnow).answer
      == CreateFacialAccess(st, b, image, tipo, areaId, dispositivo, now).answer
  {
  }

  /** `crear_acceso_pin`: the first employee with this PIN in this area; 403
      when there is none or it is not `Activo`; otherwise one permitted PIN
      row with confidence 1.0. */
  function CrearAccesoPin(st: LegacyStore, pin: string, tipo: TipoAcceso, areaId: string,
                          dispositivo: string, observaciones: Option<string>, now: string): (r: LegacyAttempt)
    ensures r.answer.Failure? ==> r.store == st
    ensures r.answer.Failure? ==> r.answer.error == PinRejected || r.answer.error == NotActive
    ensures r.answer.Success? <==>
      GetByPinAndArea(st.empleados, pin, areaId).Some? && GetByPinAndArea(st.empleados, pin, areaId).value.estadoEmpleado == Activo
    ensures r.answer.Success? ==>
      var e := GetByPinAndArea(st.empleados, pin, areaId).value;
      && r.store.empleados == st.empleados
      && r.store.nextAccesoId == st.nextAccesoId + 1
      && |r.store.accesos| == |st.accesos| + 1
      && r.store.accesos[..|st.accesos|] == st.accesos
      && r.store.accesos[|st.accesos|]
         == GrantRecord(e, areaId, tipo, LegacyPin, dispositivo, 1.0, observaciones, now).(accesoId := st.nextAccesoId)
  {
    match GetByPinAndArea(st.empleados, pin, areaId)
    case None => LegacyAttempt(Failure(PinRejected), st)
    case Some(e) =>
      if e.estadoEmpleado != Activo then LegacyAttempt(Failure(NotActive), st)
      else
        var message := "Acceso " + TipoAccesoValue(tipo) + " por PIN registrado correctamente";
        var row := GrantRecord(e, areaId, tipo, LegacyPin, dispositivo, 1.0, observaciones, now);
        LegacyAttempt(Success(AccessGranted(message, SummaryOf(e), areaId, tipo, Some(Pin), None)), Insert(st, row))
  }

  /** The two PIN routes give the same answer on the same employees. */
  lemma PinRoutesAgree(st: Store, lst: LegacyStore, pin: string, tipo: TipoAcceso, areaId: string,
                       dispositivo: string, observaciones: Option<string>, now: Timestamp, lnow: string)
    requires lst.empleados == st.empleados
    ensures CrearAccesoPin(lst, pin, tipo, areaId, dispositivo, observaciones, lnow).answer
         == CreatePinAccess(st, pin, tipo, areaId, dispositivo, now).answer
  {
  }

  const FaceRegistered: string := "Rostro registrado correctamente"
  const EmpleadoNotFound: HttpError := HttpError(404, "Empleado no encontrado")

  /** `registrar_rostro`: 404 for an unknown employee, 400 for a picture
      without a face; otherwise `UPDATE ... WHERE "EmpleadoID" = id` stores the
      first face, as JSON, in `DatosBiometricos` of the rows with that id. */
  function RegistrarRostro(st: LegacyStore, b: Biometrics, id: int, image: Bytes): (r: (Result<string, HttpError>, LegacyStore))
    ensures !HasEmpleado(st.empleados, id) ==> r == (Failure(EmpleadoNotFound), st)
    ensures HasEmpleado(st.empleados, id) && |b.detect(image)| == 0 ==> r == (Failure(NoFace), st)
    ensures r.0.Success? <==> HasEmpleado(st.empleados, id) && |b.detect(image)| > 0
    ensures r.0.Success? ==>
      && r.1.accesos == st.accesos && r.1.nextAccesoId == st.nextAccesoId
      && |r.1.empleados| == |st.empleados|
      && forall i :: 0 <= i < |st.empleados| ==>
           r.1.empleados[i] == if st.empleados[i].empleadoId == id
             then st.empleados[i].(datosBiometricos := Some(b.codecs.jsonDumps(b.detect(image)[0])))
             else st.empleados[i]
  {
    if GetById(st.empleados, id).None? then (Failure(EmpleadoNotFound), st)
    else
      var faces := b.detect(image);
      if |faces| == 0 then (Failure(NoFace), st)
      else
        var encoding := b.codecs.jsonDumps(faces[0]);
        var es := seq(|st.empleados|, i requires 0 <= i < |st.empleados| =>
          if st.empleados[i].empleadoId == id then st.empleados[i].(datosBiometricos := Some(encoding)) else st.empleados[i]);
        (Success(FaceRegistered), st.(empleados := es))
  }

  /** Registration touches only employees, so the access keys stay ascending. */
  lemma RegistrarRostroKeepsKeysAscending(st: LegacyStore, b: Biometrics, id: int, image: Bytes)
    requires LegacyKeysAscending(st)
    ensures LegacyKeysAscending(RegistrarRostro(st, b, id, image).1)
  {
  }

  /** When `json.loads` inverts `json.dumps` on the registered face vector,
      the stored JSON reads back as exactly that vector. */
  lemma RegisteredTemplateReadsBack(st: LegacyStore, b: Biometrics, id: int, image: Bytes, i: nat)
    requires RegistrarRostro(st, b, id, image).0.Success?
    requires JsonReadsBack(b.codecs, b.detect(image)[0])
    requires i < |st.empleados| && st.empleados[i].empleadoId == id
    ensures StoredVector(b.codecs, RegistrarRostro(st, b, id, image).1.empleados[i]) == Some(b.detect(image)[0])
  {
    var v := b.detect(image)[0];
    VectorValueIsVector(v);
  }

  /** Every template in the table reads as a vector. */
  ghost predicate TemplatesReadable(c: Codecs, es: seq<Empleado>)
  {
    forall i :: 0 <= i < |es| && HasTemplate(es[i]) ==> Readable(c, es[i])
  }

  /** Registration keeps every template in the table readable: the new ones
      read back as the registered vector, the others are untouched. */
  lemma RegistrationKeepsTemplatesReadable(st: LegacyStore, b: Biometrics, id: int, image: Bytes)
    requires TemplatesReadable(b.codecs, st.empleados)
    requires RegistrarRostro(st, b, id, image).0.Success?
    requires JsonReadsBack(b.codecs, b.detect(image)[0])
    ensures TemplatesReadable(b.codecs, RegistrarRostro(st, b, id, image).1.empleados)
  {
    var es, es' := st.empleados, RegistrarRostro(st, b, id, image).1.empleados;
    forall m | 0 <= m < |es'| && HasTemplate(es'[m])
      ensures Readable(b.codecs, es'[m])
    {
      if es[m].empleadoId == id {
        RegisteredTemplateReadsBack(st, b, id, image, m);
      }
    }
  }

  /** The matcher's candidates inherit readability from the table. */
  lemma CandidatesReadable(c: Codecs, es: seq<Empleado>)
    requires TemplatesReadable(c, es)
    ensures forall i :: 0 <= i < |GetWithBiometricData(es)| ==> Readable(c, GetWithBiometricData(es)[i])
  {
    var cands := GetWithBiometricData(es);
    forall i | 0 <= i < |cands|
      ensures Readable(c, cands[i])
    {
      var m :| 0 <= m < |es| && es[m] == cands[i];
    }
  }

  /** Registration followed by matching the same picture: the matcher answers
      with full confidence (the registered employee, or an earlier candidate
      at distance zero), provided every other template reads. */
  lemma RegisteredFaceMatchesFully(st: LegacyStore, b: Biometrics, id: int, image: Bytes)
    requires DistanceLaws(b.dist)
    requires TemplatesReadable(b.codecs, st.empleados)
    requires RegistrarRostro(st, b, id, image).0.Success?
    requires JsonReadsBack(b.codecs, b.detect(image)[0])
    ensures var st' := RegistrarRostro(st, b, id, image).1;
      var m := CompareFaces(b, DefaultThreshold, b.detect(image)[0], GetWithBiometricData(st'.empleados));
      m.Success? && m.value.Match? && m.value.confidence == 1.0
  {
    var es' := RegistrarRostro(st, b, id, image).1.empleados;
    var probe := b.detect(image)[0];
    var cands := GetWithBiometricData(es');
    var j :| 0 <= j < |st.empleados| && st.empleados[j].empleadoId == id;
    RegisteredTemplateReadsBack(st, b, id, image, j);
    assert HasTemplate(es'[j]);
    var k :| 0 <= k < |cands| && cands[k] == es'[j];
    RegistrationKeepsTemplatesReadable(st, b, id, image);
    CandidatesReadable(b.codecs, es');
    IdenticalProbeFullConfidence(b, DefaultThreshold, probe, cands, k);
  }

  // ---------------------------------------------------------------------------
  // The legacy listing
  // ---------------------------------------------------------------------------

  /** The query-string arguments of the legacy `GET /accesos`. */
  datatype LegacyQuery = LegacyQuery(
    empleadoId: Option<int>,
    areaId: Option<string>,
    tipoAcceso: Option<string>,
    fechaInicio: Option<string>,
    fechaFin: Option<string>)

  const DefaultLimit: int := 100
  const DefaultOffset: int := 0

  /** Text comparison `a <= b`, character by character. */
  predicate LexLe(a: string, b: string)
    decreases |a|
  {
    if |a| == 0 then true
    else if |b| == 0 then false
    else if a[0] != b[0] then a[0] < b[0]
    else LexLe(a[1..], b[1..])
  }

  lemma {:induction false} LexLeReflexive(a: string)
    ensures LexLe(a, a)
  {
    if |a| > 0 {
      LexLeReflexive(a[1..]);
    }
  }

  /** `column >= :bound` on a nullable text column: NULL never satisfies it. */
  predicate AtOrAfter(ts: Option<string>, bound: string)
  {
    ts.Some? && LexLe(bound, ts.value)
  }

  predicate AtOrBefore(ts: Option<string>, bound: string)
  {
    ts.Some? && LexLe(ts.value, bound)
  }

  /** The `WHERE` clause: each condition is added only for a truthy argument;
      the date bounds hold when either timestamp satisfies them. */
  predicate LegacyMatches(a: LegacyAcceso, q: LegacyQuery)
  {
    && (TruthyInt(q.empleadoId) ==> a.empleadoId == Some(q.empleadoId.value))
    && (Truthy(q.areaId) ==> a.areaId == q.areaId.value)
    && (Truthy(q.tipoAcceso) ==> TipoAccesoValue(a.tipoAcceso) == q.tipoAcceso.value)
    && (Truthy(q.fechaInicio) ==> AtOrAfter(a.fechaHoraIngreso, q.fechaInicio.value) || AtOrAfter(a.fechaHoraEgreso, q.fechaInicio.value))
    && (Truthy(q.fechaFin) ==> AtOrBefore(a.fechaHoraIngreso, q.fechaFin.value) || AtOrBefore(a.fechaHoraEgreso, q.fechaFin.value))
  }

  /** For a row a legacy grant wrote, the date bounds test its one timestamp. */
  lemma GrantedRowDateBounds(e: Empleado, areaId: string, tipo: TipoAcceso, metodo: LegacyMetodo, dispositivo: string,
                             confianza: real, observaciones: Option<string>, now: string, bound: string)
    ensures var a := GrantRecord(e, areaId, tipo, metodo, dispositivo, confianza, observaciones, now);
      && (AtOrAfter(a.fechaHoraIngreso, bound) || AtOrAfter(a.fechaHoraEgreso, bound) <==> LexLe(bound, now))
      && (AtOrBefore(a.fechaHoraIngreso, bound) || AtOrBefore(a.fechaHoraEgreso, bound) <==> LexLe(now, bound))
  {
  }

  /** `SELECT a.*, e."Nombre", e."Apellido", e."DNI", e."Rol"`. */
  datatype LegacyRow = LegacyRow(acceso: LegacyAcceso, nombre: string, apellido: string, dni: string, rol: Rol)

  predicate LegacyJoinable(es: seq<Empleado>, a: LegacyAcceso)
  {
    a.empleadoId.Some? && HasEmpleado(es, a.empleadoId.value)
  }

  predicate LegacyKept(es: seq<Empleado>, q: LegacyQuery, a: LegacyAcceso)
  {
    LegacyJoinable(es, a) && LegacyMatches(a, q)
  }

  function LegacyKeptAccesos(st: LegacyStore, q: LegacyQuery): (r: seq<LegacyAcceso>)
    ensures forall i :: 0 <= i < |r| ==> r[i] in st.accesos && LegacyKept(st.empleados, q, r[i])
    ensures forall i :: 0 <= i < |st.accesos| && LegacyKept(st.empleados, q, st.accesos[i]) ==> st.accesos[i] in r
  {
    Filter(st.accesos, a => LegacyKept(st.empleados, q, a))
  }

  function LegacyRowOf(es: seq<Empleado>, a: LegacyAcceso): LegacyRow
    requires LegacyJoinable(es, a)
  {
    var e := GetById(es, a.empleadoId.value).value;
    LegacyRow(a, e.nombre, e.apellido, e.dni, e.rol)
  }

  /** The four employee columns of a row are those of the employee its
      access joins. */
  predicate LegacyRowAgrees(es: seq<Empleado>, row: LegacyRow)
  {
    && row.acceso.empleadoId.Some?
    && match GetById(es, row.acceso.empleadoId.value)
       case None => false
       case Some(e) => row.nombre == e.nombre && row.apellido == e.apellido && row.dni == e.dni && row.rol == e.rol
  }

  /** The joined, filtered rows in table order. */
  function LegacySelected(st: LegacyStore, q: LegacyQuery): (rows: seq<LegacyRow>)
    ensures |rows| == |LegacyKeptAccesos(st, q)|
    ensures forall i :: 0 <= i < |rows| ==> rows[i].acceso == LegacyKeptAccesos(st, q)[i]
    ensures forall i :: 0 <= i < |rows| ==> LegacyRowAgrees(st.empleados, rows[i])
  {
    var kept := LegacyKeptAccesos(st, q);
    seq(|kept|, i requires 0 <= i < |kept| => LegacyRowOf(st.empleados, kept[i]))
  }

  /** A truthy `tipo_acceso` is compared with the native enum column, so it
      must name one of the enum's labels; the database rejects any other
      literal. */
  predicate TipoFilterAccepted(q: LegacyQuery)
  {
    Truthy(q.tipoAcceso) ==>
      q.tipoAcceso.value == TipoAccesoValue(Ingreso) || q.tipoAcceso.value == TipoAccesoValue(Egreso)
  }

  /** `obtener_accesos`: the rows passing every truthy filter, by `AccesoID`
      descending, then `LIMIT limit OFFSET offset`. The database refuses a
      negative limit or offset and a `tipo_acceso` that names no enum label;
      with no handler around the query, each surfaces as an unhandled 500. */
  function ObtenerAccesos(st: LegacyStore, q: LegacyQuery, limit: int, offset: int): (r: Result<seq<LegacyRow>, HttpError>)
    ensures r.Failure? <==> limit < 0 || offset < 0 || !TipoFilterAccepted(q)
    ensures r.Failure? ==> r.error == UnhandledError
    ensures r.Success? ==>
      var sel := LegacySelected(st, q);
      && |r.value| <= limit
      && |r.value| == (if offset >= |sel| then 0 else Min(limit, |sel| - offset))
      && forall i :: 0 <= i < |r.value| ==>
           && offset + i < |sel|
           && r.value[i] == sel[|sel| - 1 - (offset + i)]
           && r.value[i].acceso in st.accesos && LegacyMatches(r.value[i].acceso, q)
           && LegacyRowAgrees(st.empleados, r.value[i])
  {
    if limit < 0 || offset < 0 || !TipoFilterAccepted(q) then Failure(UnhandledError)
    else Success(Window(Reverse(LegacySelected(st, q)), offset, limit))
  }

  /** Every selected row appears in any window covering its position, newest
      first. */
  lemma LegacyListingCoversSelection(st: LegacyStore, q: LegacyQuery, k: nat, limit: nat, offset: nat)
    requires TipoFilterAccepted(q)
    requires k < |LegacySelected(st, q)| && offset <= k < offset + limit
    ensures var r := ObtenerAccesos(st, q, limit, offset);
      var sel := LegacySelected(st, q);
      r.Success? && k - offset < |r.value| && r.value[k - offset] == sel[|sel| - 1 - k]
  {
    var sel := LegacySelected(st, q);
    var w := Window(Reverse(sel), offset, limit);
    assert ObtenerAccesos(st, q, limit, offset) == Success(w);
    WindowItem(Reverse(sel), offset, limit, k - offset);
  }

  function LegacyKey(a: LegacyAcceso): int
  {
    a.accesoId
  }

  function LegacyRowKey(row: LegacyRow): int
  {
    row.acceso.accesoId
  }

  /** With ascending keys in the table (as `LegacyKeysAscending` keeps them
      across every legacy writer), the answer is newest first, and the
      defaults return the `min(100, n)` newest matching rows: every selected
      row left out is older than every row returned. */
  lemma LegacyListingNewestFirst(st: LegacyStore, q: LegacyQuery, limit: int, offset: int)
    requires IncreasingBy(st.accesos, LegacyKey)
    ensures var r := ObtenerAccesos(st, q, limit, offset);
      r.Success? ==> forall i, j :: 0 <= i < j < |r.value| ==> r.value[i].acceso.accesoId > r.value[j].acceso.accesoId
    ensures TipoFilterAccepted(q) ==>
      var r := ObtenerAccesos(st, q, DefaultLimit, DefaultOffset);
      var sel := LegacySelected(st, q);
      && r.Success? && |r.value| == Min(DefaultLimit, |sel|)
      && forall k, i :: 0 <= k < |sel| - |r.value| && 0 <= i < |r.value| ==>
           sel[k].acceso.accesoId < r.value[i].acceso.accesoId
  {
    var kept := LegacyKeptAccesos(st, q);
    if |st.accesos| > 0 {
      FilterKeepsIncreasing(st.accesos, LegacyKey, a => LegacyKept(st.empleados, q, a), LegacyKey(st.accesos[0]));
    }
    assert IncreasingBy(kept, LegacyKey);
    var sel := LegacySelected(st, q);
    assert IncreasingBy(sel, LegacyRowKey) by {
      forall i, j | 0 <= i < j < |sel|
        ensures LegacyRowKey(sel[i]) < LegacyRowKey(sel[j])
      {
        assert sel[i].acceso == kept[i] && sel[j].acceso == kept[j];
      }
    }
    if limit >= 0 && offset >= 0 {
      WindowOfReverseDecreasing(sel, LegacyRowKey, offset, limit);
    }
    NewestWindow(sel, LegacyRowKey, DefaultLimit);
  }
}
