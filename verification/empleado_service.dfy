/** services/empleado_service.py: employee lookup, creation, face
    registration and deletion over the repository store. Every operation is a
    pure function from a store to an answer and the store afterwards. */
module EmpleadoService {
  import opened Common
  import opened Schema
  import opened Repositories

  /** The `EmpleadoCreate` request body. */
  datatype EmpleadoCreate = EmpleadoCreate(
    nombre: string,
    apellido: string,
    dni: string,
    fechaNacimiento: string,
    email: string,
    rol: Rol,
    estadoEmpleado: EstadoEmpleado,
    areaId: string,
    pin: Option<string>)

  /** `EmpleadoResponse`: the public columns. The service never fills
      `AreaNombre` nor `TieneBiometricos`, so they keep their defaults. */
  datatype EmpleadoResponse = EmpleadoResponse(
    empleadoId: int,
    nombre: string,
    apellido: string,
    dni: string,
    fechaNacimiento: string,
    email: string,
    rol: Rol,
    estadoEmpleado: EstadoEmpleado,
    areaId: string,
    areaNombre: Option<string>,
    tieneBiometricos: bool,
    fechaRegistro: string)

  /** The dictionary `get_empleado_completo` answers: the public columns plus
      the PIN and the plaintext template. */
  datatype EmpleadoCompleto = EmpleadoCompleto(
    empleadoId: int,
    nombre: string,
    apellido: string,
    dni: string,
    fechaNacimiento: string,
    email: string,
    rol: Rol,
    estadoEmpleado: EstadoEmpleado,
    areaId: string,
    pin: Option<string>,
    datosBiometricos: Option<string>,
    fechaRegistro: string)

  function ResponseOf(e: Empleado): EmpleadoResponse
  {
    EmpleadoResponse(e.empleadoId, e.nombre, e.apellido, e.dni, e.fechaNacimiento, e.email,
                     e.rol, e.estadoEmpleado, e.areaId, None, false, e.fechaRegistro)
  }

  /** The response carries exactly the public columns of the row. */
  ghost predicate Describes(r: EmpleadoResponse, e: Empleado)
  {
    && r.empleadoId == e.empleadoId && r.nombre == e.nombre && r.apellido == e.apellido
    && r.dni == e.dni && r.fechaNacimiento == e.fechaNacimiento && r.email == e.email
    && r.rol == e.rol && r.estadoEmpleado == e.estadoEmpleado && r.areaId == e.areaId
    && r.fechaRegistro == e.fechaRegistro
    && r.areaNombre.None? && !r.tieneBiometricos
  }

  const NotFound: HttpError := HttpError(404, "Empleado no encontrado")
  const Duplicate: HttpError := HttpError(400, "DNI o Email ya registrados")

  function AreaNotFound(areaId: string): HttpError
  {
    HttpError(404, "Área con ID '" + areaId + "' no encontrada")
  }

  /** `get_empleado`: 404 for an unknown id, else the public view of the row. */
  function GetEmpleado(st: Store, id: int): (r: Result<EmpleadoResponse, HttpError>)
    ensures r.Failure? <==> !HasEmpleado(st.empleados, id)
    ensures r.Failure? ==> r.error == NotFound
    ensures r.Success? ==>
      r.value.empleadoId == id && exists k :: 0 <= k < |st.empleados| && Describes(r.value, st.empleados[k])
  {
    match GetById(st.empleados, id)
    case None => Failure(NotFound)
    case Some(e) => Success(ResponseOf(e))
  }

  /** `get_empleado_completo`: 404 for an unknown id, else every column but
      the encrypted ones. */
  function GetEmpleadoCompleto(st: Store, id: int): (r: Result<EmpleadoCompleto, HttpError>)
    ensures r.Failure? <==> !HasEmpleado(st.empleados, id)
    ensures r.Failure? ==> r.error == NotFound
    ensures r.Success? ==>
      && r.value.empleadoId == id
      && exists k :: 0 <= k < |st.empleados| && st.empleados[k].empleadoId == id
           && r.value.pin == st.empleados[k].pin
           && r.value.datosBiometricos == st.empleados[k].datosBiometricos
  {
    match GetById(st.empleados, id)
    case None => Failure(NotFound)
    case Some(e) =>
      Success(EmpleadoCompleto(e.empleadoId, e.nombre, e.apellido, e.dni, e.fechaNacimiento, e.email,
                               e.rol, e.estadoEmpleado, e.areaId, e.pin, e.datosBiometricos, e.fechaRegistro))
  }

  /** The two lookups refuse the same ids and agree on the public columns. */
  lemma LookupsAgree(st: Store, id: int)
    ensures GetEmpleado(st, id).Failure? <==> GetEmpleadoCompleto(st, id).Failure?
    ensures GetEmpleado(st, id).Success? ==>
      var p, c := GetEmpleado(st, id).value, GetEmpleadoCompleto(st, id).value;
      p.nombre == c.nombre && p.apellido == c.apellido && p.dni == c.dni && p.email == c.email
      && p.rol == c.rol && p.estadoEmpleado == c.estadoEmpleado && p.areaId == c.areaId
  {
  }

  predicate Conflicts(es: seq<Empleado>, data: EmpleadoCreate)
  {
    exists i :: 0 <= i < |es| && (es[i].dni == data.dni || es[i].email == data.email)
  }

  /** The row `create_empleado` hands to the repository: no biometric data,
      the column default `estado = 'activo'`, registered at `now`. */
  function NewRow(data: EmpleadoCreate, now: string): Empleado
  {
    Empleado(0, data.nombre, data.apellido, data.dni, data.fechaNacimiento, data.email,
             data.rol, data.estadoEmpleado, data.areaId, data.pin, None, None, None, "activo", now)
  }

  /** `create_empleado`: 400 when any employee shares the DNI or the Email
      (checked first), 404 for an unknown area, otherwise one new row. `now`
      is the `datetime.now(timezone.utc).isoformat()` the source reads. */
  function CreateEmpleado(st: Store, data: EmpleadoCreate, now: string): (r: (Result<EmpleadoResponse, HttpError>, Store))
    ensures Conflicts(st.empleados, data) ==> r == (Failure(Duplicate), st)
    ensures !Conflicts(st.empleados, data) && !AreaExists(st.areas, data.areaId) ==>
      r == (Failure(AreaNotFound(data.areaId)), st)
    ensures r.0.Success? <==> !Conflicts(st.empleados, data) && AreaExists(st.areas, data.areaId)
    ensures r.0.Success? ==>
      && |r.1.empleados| == |st.empleados| + 1
      && r.1.empleados[..|st.empleados|] == st.empleados
      && var e := r.1.empleados[|st.empleados|];
         && e.empleadoId == st.nextEmpleadoId
         && e.nombre == data.nombre && e.apellido == data.apellido && e.dni == data.dni
         && e.fechaNacimiento == data.fechaNacimiento && e.email == data.email
         && e.rol == data.rol && e.estadoEmpleado == data.estadoEmpleado
         && e.areaId == data.areaId && e.pin == data.pin
         && e.datosBiometricos.None? && e.vectorCifrado.None? && e.iv.None?
         && e.estado == "activo" && e.fechaRegistro == now
         && Describes(r.0.value, e)
    ensures r.0.Success? ==> r.1.areas == st.areas && r.1.accesos == st.accesos
  {
    if GetByDniOrEmail(st.empleados, data.dni, data.email).Some? then
      (Failure(Duplicate), st)
    else if !AreaExists(st.areas, data.areaId) then
      (Failure(AreaNotFound(data.areaId)), st)
    else
      var (st', row) := Repositories.CreateEmpleado(st, NewRow(data, now));
      (Success(ResponseOf(row)), st')
  }

  /** A duplicate with an unknown area is refused as a duplicate. */
  lemma DuplicateCheckedBeforeArea(st: Store, data: EmpleadoCreate, now: string, k: nat)
    requires k < |st.empleados| && (st.empleados[k].dni == data.dni || st.empleados[k].email == data.email)
    ensures CreateEmpleado(st, data, now).0 == Failure(Duplicate)
  {
  }

  lemma {:induction false} HasEmpleadoExtends(es: seq<Empleado>, e: Empleado, id: int)
    requires HasEmpleado(es, id)
    ensures HasEmpleado(es + [e], id)
  {
    var i :| 0 <= i < |es| && es[i].empleadoId == id;
    assert (es + [e])[i] == es[i];
  }

  /** Creation keeps the store consistent; in particular DNI and Email stay unique. */
  lemma CreatePreservesValid(st: Store, data: EmpleadoCreate, now: string)
    requires Valid(st)
    ensures Valid(CreateEmpleado(st, data, now).1)
  {
    var r := CreateEmpleado(st, data, now);
    if r.0.Success? {
      var es, es' := st.empleados, r.1.empleados;
      var e := es'[|es|];
      assert es' == es + [e];
      assert forall i :: 0 <= i < |es| ==> es'[i] == es[i];
      assert !Conflicts(es, data);
      assert UniqueNaturalKeys(es') by {
        forall i, j | 0 <= i < |es'| && 0 <= j < |es'| && i != j
          ensures es'[i].dni != es'[j].dni && es'[i].email != es'[j].email
        {
          if i == |es| {
            assert !(es[j].dni == data.dni || es[j].email == data.email);
          } else if j == |es| {
            assert !(es[i].dni == data.dni || es[i].email == data.email);
          }
        }
      }
      assert ReferencesResolve(r.1) by {
        forall i | 0 <= i < |st.accesos| && st.accesos[i].empleadoId.Some?
          ensures HasEmpleado(es', st.accesos[i].empleadoId.value)
        {
          HasEmpleadoExtends(es, e, st.accesos[i].empleadoId.value);
        }
      }
    }
  }

  const FaceRegistered: string := "Rostro registrado correctamente"

  /** `register_face`: 404 for an unknown id; otherwise that employee's
      `DatosBiometricos` becomes the given JSON and nothing else changes. */
  function RegisterFace(st: Store, id: int, faceEncodingJson: string): (r: (Result<string, HttpError>, Store))
    ensures r.0.Failure? <==> !HasEmpleado(st.empleados, id)
    ensures r.0.Failure? ==> r.0.error == NotFound && r.1 == st
    ensures r.0.Success? ==>
      && r.0.value == FaceRegistered
      && r.1.areas == st.areas && r.1.accesos == st.accesos
      && r.1.nextEmpleadoId == st.nextEmpleadoId && r.1.nextAccesoId == st.nextAccesoId
      && |r.1.empleados| == |st.empleados|
      && forall j :: 0 <= j < |st.empleados| ==>
           if st.empleados[j].empleadoId == id && IndexOfId(st.empleados, id) == Some(j)
           then r.1.empleados[j] == st.empleados[j].(datosBiometricos := Some(faceEncodingJson))
           else r.1.empleados[j] == st.empleados[j]
  {
    if GetById(st.empleados, id).None? then
      (Failure(NotFound), st)
    else
      var (ok, es) := UpdateBiometricData(st.empleados, id, faceEncodingJson);
      if ok then (Success(FaceRegistered), st.(empleados := es))
      else (Failure(HttpError(500, "Error al registrar rostro")), st)
  }

  /** Rewriting employee rows without touching their key, DNI, Email or area
      keeps the store consistent. */
  lemma SameKeysKeepValid(st: Store, es': seq<Empleado>)
    requires Valid(st) && |es'| == |st.empleados|
    requires forall j :: 0 <= j < |es'| ==>
      es'[j].empleadoId == st.empleados[j].empleadoId && es'[j].dni == st.empleados[j].dni
      && es'[j].email == st.empleados[j].email && es'[j].areaId == st.empleados[j].areaId
    ensures Valid(st.(empleados := es'))
  {
    var es := st.empleados;
    forall i | 0 <= i < |st.accesos| && st.accesos[i].empleadoId.Some?
      ensures HasEmpleado(es', st.accesos[i].empleadoId.value)
    {
      var x := st.accesos[i].empleadoId.value;
      var k :| 0 <= k < |es| && es[k].empleadoId == x;
      assert es'[k].empleadoId == x;
    }
  }

  /** Registering a face changes no key, DNI, Email, area or access, so the
      store stays consistent. */
  lemma RegisterFacePreservesValid(st: Store, id: int, faceEncodingJson: string)
    requires Valid(st)
    ensures Valid(RegisterFace(st, id, faceEncodingJson).1)
  {
    var r := RegisterFace(st, id, faceEncodingJson);
    if r.0.Success? {
      SameKeysKeepValid(st, r.1.empleados);
      assert r.1 == st.(empleados := r.1.empleados);
    }
  }

  /** `delete_empleado`: 404 for an unknown id; otherwise the employee's
      accesses are deleted first, then the employee, and the answer describes
      the deleted row. */
  function DeleteEmpleado(st: Store, id: int): (r: (Result<EmpleadoResponse, HttpError>, Store))
    ensures r.0.Failure? <==> !HasEmpleado(st.empleados, id)
    ensures r.0.Failure? ==> r.0.error == NotFound && r.1 == st
    ensures r.0.Success? ==>
      && GetById(st.empleados, id).Some?
      && r.0.value == ResponseOf(GetById(st.empleados, id).value)
      && r.0.value.empleadoId == id
      && r.1.areas == st.areas
      && r.1.nextEmpleadoId == st.nextEmpleadoId && r.1.nextAccesoId == st.nextAccesoId
      && r.1.accesos == DeleteByEmpleadoId(st.accesos, id)
      && r.1.empleados == Repositories.DeleteEmpleado(st.empleados, id).1
      && |r.1.empleados| == |st.empleados| - 1
  {
    match GetById(st.empleados, id)
    case None => (Failure(NotFound), st)
    case Some(e) =>
      var accesos := DeleteByEmpleadoId(st.accesos, id);
      var (_, es) := Repositories.DeleteEmpleado(st.empleados, id);
      (Success(ResponseOf(e)), st.(empleados := es, accesos := accesos))
  }

  /** Removing one row keeps the keys ascending and DNI and Email unique. */
  lemma RemovalKeepsKeys(es: seq<Empleado>, next: int, k: nat)
    requires EmpleadoKeysAscending(es, next) && UniqueNaturalKeys(es) && k < |es|
    ensures EmpleadoKeysAscending(es[..k] + es[k + 1..], next)
    ensures UniqueNaturalKeys(es[..k] + es[k + 1..])
  {
    var es' := es[..k] + es[k + 1..];
    assert forall i :: 0 <= i < |es'| ==> es'[i] == es[if i < k then i else i + 1];
  }

  /** An access kept by the cascade still resolves after the employee is removed. */
  lemma KeptAccesoResolves(st: Store, id: int, es': seq<Empleado>, a: Acceso)
    requires ReferencesResolve(st)
    requires a in st.accesos && a.empleadoId != Some(id)
    requires forall i :: 0 <= i < |st.empleados| && st.empleados[i].empleadoId != id ==> st.empleados[i] in es'
    ensures AreaExists(st.areas, a.areaId)
    ensures a.empleadoId.Some? ==> HasEmpleado(es', a.empleadoId.value)
  {
    var j :| 0 <= j < |st.accesos| && st.accesos[j] == a;
    if a.empleadoId.Some? {
      var x := a.empleadoId.value;
      assert HasEmpleado(st.empleados, x);
      var m :| 0 <= m < |st.empleados| && st.empleados[m].empleadoId == x;
      assert st.empleados[m] in es';
      var m' :| 0 <= m' < |es'| && es'[m'] == st.empleados[m];
    }
  }

  /** After a successful delete no employee and no access carries the id,
      and every other employee and access is still there. */
  lemma DeleteCascades(st: Store, id: int)
    requires Valid(st)
    ensures var r := DeleteEmpleado(st, id);
      r.0.Success? ==>
        && !HasEmpleado(r.1.empleados, id)
        && (forall i :: 0 <= i < |r.1.accesos| ==> r.1.accesos[i].empleadoId != Some(id))
        && (forall i :: 0 <= i < |st.empleados| && st.empleados[i].empleadoId != id ==> st.empleados[i] in r.1.empleados)
        && (forall i :: 0 <= i < |st.accesos| && st.accesos[i].empleadoId != Some(id) ==> st.accesos[i] in r.1.accesos)
  {
    var r := DeleteEmpleado(st, id);
    if r.0.Success? {
      DeleteRemovesExactlyThatEmpleado(st.empleados, st.nextEmpleadoId, id);
    }
  }

  /** The store stays consistent after a delete: in particular no access is
      left pointing at the removed employee. */
  lemma DeletePreservesValid(st: Store, id: int)
    requires Valid(st)
    ensures Valid(DeleteEmpleado(st, id).1)
  {
    var r := DeleteEmpleado(st, id);
    if r.0.Success? {
      var es, es', as' := st.empleados, r.1.empleados, r.1.accesos;
      DeleteRemovesExactlyThatEmpleado(es, st.nextEmpleadoId, id);
      var k := IndexOfId(es, id).value;
      assert es' == es[..k] + es[k + 1..];
      RemovalKeepsKeys(es, st.nextEmpleadoId, k);
      FilterKeepsAccesoOrder(st.accesos, st.nextAccesoId, a => NotOf(id, a));
      forall i | 0 <= i < |es'|
        ensures AreaExists(st.areas, es'[i].areaId)
      {
        assert es'[i] == es[if i < k then i else i + 1];
      }
      forall i | 0 <= i < |as'|
        ensures AreaExists(st.areas, as'[i].areaId)
        ensures as'[i].empleadoId.Some? ==> HasEmpleado(es', as'[i].empleadoId.value)
      {
        KeptAccesoResolves(st, id, es', as'[i]);
      }
      assert ReferencesResolve(r.1);
    }
  }

}
