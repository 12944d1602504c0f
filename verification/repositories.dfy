/** database/repositories.py: the employee, area and access repositories over
    an in-memory store whose tables are sequences in insertion order. */
module Repositories {
  import opened Common
  import opened Schema

  /** The three tables and the next values of the two autoincrement keys. */
  datatype Store = Store(
    areas: seq<Area>,
    empleados: seq<Empleado>,
    accesos: seq<Acceso>,
    nextEmpleadoId: int,
    nextAccesoId: int)

  // ---------------------------------------------------------------------------
  // What the database guarantees about the tables
  // ---------------------------------------------------------------------------

  /** Autoincrement keys: rows sit in ascending key order, below the next key. */
  ghost predicate EmpleadoKeysAscending(es: seq<Empleado>, next: int)
  {
    && (forall i, j :: 0 <= i < j < |es| ==> es[i].empleadoId < es[j].empleadoId)
    && (forall i :: 0 <= i < |es| ==> es[i].empleadoId < next)
  }

  function AccesoKey(a: Acceso): int
  {
    a.accesoId
  }

  ghost predicate AccesoKeysAscending(accs: seq<Acceso>, next: int)
  {
    && (forall i, j :: 0 <= i < j < |accs| ==> accs[i].accesoId < accs[j].accesoId)
    && (forall i :: 0 <= i < |accs| ==> accs[i].accesoId < next)
  }

  /** The `unique=True` columns DNI and Email. */
  ghost predicate UniqueNaturalKeys(es: seq<Empleado>)
  {
    forall i, j :: 0 <= i < |es| && 0 <= j < |es| && i != j ==> es[i].dni != es[j].dni && es[i].email != es[j].email
  }

  predicate HasEmpleado(es: seq<Empleado>, id: int)
  {
    exists i :: 0 <= i < |es| && es[i].empleadoId == id
  }

  /** `AreaRepository.exists(area_id)`. */
  predicate AreaExists(areas: seq<Area>, areaId: string)
  {
    exists i :: 0 <= i < |areas| && areas[i].areaId == areaId
  }

  /** The foreign keys: employees and accesses name existing areas, and an
      access names an existing employee or none. */
  ghost predicate ReferencesResolve(st: Store)
  {
    && (forall i :: 0 <= i < |st.empleados| ==> AreaExists(st.areas, st.empleados[i].areaId))
    && (forall i :: 0 <= i < |st.accesos| ==> AreaExists(st.areas, st.accesos[i].areaId))
    && (forall i :: 0 <= i < |st.accesos| && st.accesos[i].empleadoId.Some? ==>
          HasEmpleado(st.empleados, st.accesos[i].empleadoId.value))
  }

  ghost predicate Valid(st: Store)
  {
    && EmpleadoKeysAscending(st.empleados, st.nextEmpleadoId)
    && AccesoKeysAscending(st.accesos, st.nextAccesoId)
    && UniqueNaturalKeys(st.empleados)
    && ReferencesResolve(st)
  }

  // ---------------------------------------------------------------------------
  // EmpleadoRepository
  // ---------------------------------------------------------------------------

  /** Position of the row `filter_by(EmpleadoID=id).first()` returns. */
  function IndexOfId(es: seq<Empleado>, id: int): (r: Option<nat>)
    ensures r.Some? ==> r.value < |es| && es[r.value].empleadoId == id
    ensures r.Some? ==> forall j :: 0 <= j < r.value ==> es[j].empleadoId != id
    ensures r.None? <==> !HasEmpleado(es, id)
  {
    FirstIndex(es, (e: Empleado) => e.empleadoId == id)
  }

  /** `get_by_id`. */
  function GetById(es: seq<Empleado>, id: int): (r: Option<Empleado>)
    ensures r.None? <==> !HasEmpleado(es, id)
    ensures r.Some? ==> r.value in es && r.value.empleadoId == id
  {
    match IndexOfId(es, id)
    case None => None
    case Some(k) => Some(es[k])
  }

  /** With unique keys, the row found by id is the only one carrying it. */
  lemma GetByIdUnique(es: seq<Empleado>, next: int, k: nat)
    requires EmpleadoKeysAscending(es, next) && k < |es|
    ensures GetById(es, es[k].empleadoId) == Some(es[k])
  {
    var r := IndexOfId(es, es[k].empleadoId);
    assert HasEmpleado(es, es[k].empleadoId);
    assert r.value == k;
  }

  /** `get_by_dni_or_email`: some employee sharing the DNI or the Email. */
  function GetByDniOrEmail(es: seq<Empleado>, dni: string, email: string): (r: Option<Empleado>)
    ensures r.None? <==> forall i :: 0 <= i < |es| ==> es[i].dni != dni && es[i].email != email
    ensures r.Some? ==> r.value in es && (r.value.dni == dni || r.value.email == email)
  {
    match FirstIndex(es, (e: Empleado) => e.dni == dni || e.email == email)
    case None => None
    case Some(k) => Some(es[k])
  }

  /** `get_by_pin_and_area`: the first employee with this PIN in this area,
      whatever its state. */
  function GetByPinAndArea(es: seq<Empleado>, pin: string, areaId: string): (r: Option<Empleado>)
    ensures r.None? <==> forall i :: 0 <= i < |es| ==> !(es[i].pin == Some(pin) && es[i].areaId == areaId)
    ensures r.Some? ==> r.value in es && r.value.pin == Some(pin) && r.value.areaId == areaId
  {
    match FirstIndex(es, (e: Empleado) => e.pin == Some(pin) && e.areaId == areaId)
    case None => None
    case Some(k) => Some(es[k])
  }

  predicate HasTemplate(e: Empleado)
  {
    e.datosBiometricos.Some?
  }

  /** `get_with_biometric_data`: the employees whose `DatosBiometricos` is not
      NULL, in table order, whatever their state. */
  function GetWithBiometricData(es: seq<Empleado>): (r: seq<Empleado>)
    ensures forall i :: 0 <= i < |r| ==> r[i] in es && HasTemplate(r[i])
    ensures forall i :: 0 <= i < |es| && HasTemplate(es[i]) ==> es[i] in r
  {
    Filter(es, HasTemplate)
  }

  /** `create`: the row is inserted with the next autoincrement key. */
  function CreateEmpleado(st: Store, e: Empleado): (r: (Store, Empleado))
    ensures r.1 == e.(empleadoId := st.nextEmpleadoId)
    ensures r.0.empleados == st.empleados + [r.1] && r.0.nextEmpleadoId == st.nextEmpleadoId + 1
    ensures r.0.areas == st.areas && r.0.accesos == st.accesos && r.0.nextAccesoId == st.nextAccesoId
  {
    var row := e.(empleadoId := st.nextEmpleadoId);
    (st.(empleados := st.empleados + [row], nextEmpleadoId := st.nextEmpleadoId + 1), row)
  }

  /** `update_biometric_data`: `False` and no change for an unknown id;
      otherwise `True`, with that row's `DatosBiometricos` replaced. */
  function UpdateBiometricData(es: seq<Empleado>, id: int, data: string): (r: (bool, seq<Empleado>))
    ensures r.0 <==> HasEmpleado(es, id)
    ensures !r.0 ==> r.1 == es
    ensures |r.1| == |es|
    ensures r.0 ==> var k := IndexOfId(es, id).value;
      && r.1[k] == es[k].(datosBiometricos := Some(data))
      && forall j :: 0 <= j < |es| && j != k ==> r.1[j] == es[j]
  {
    match IndexOfId(es, id)
    case None => (false, es)
    case Some(k) => (true, es[k := es[k].(datosBiometricos := Some(data))])
  }

  /** `delete`: `False` for an unknown id; otherwise `True`, with that row removed. */
  function DeleteEmpleado(es: seq<Empleado>, id: int): (r: (bool, seq<Empleado>))
    ensures r.0 <==> HasEmpleado(es, id)
    ensures !r.0 ==> r.1 == es
    ensures r.0 ==> var k := IndexOfId(es, id).value; r.1 == es[..k] + es[k + 1..]
  {
    match IndexOfId(es, id)
    case None => (false, es)
    case Some(k) => (true, es[..k] + es[k + 1..])
  }

  /** With unique keys, deleting an id leaves no row with it, and every other
      row stays. */
  lemma DeleteRemovesExactlyThatEmpleado(es: seq<Empleado>, next: int, id: int)
    requires EmpleadoKeysAscending(es, next)
    ensures !HasEmpleado(DeleteEmpleado(es, id).1, id)
    ensures forall i :: 0 <= i < |es| && es[i].empleadoId != id ==> es[i] in DeleteEmpleado(es, id).1
  {
    var r := DeleteEmpleado(es, id).1;
    if HasEmpleado(es, id) {
      var k := IndexOfId(es, id).value;
      assert r == es[..k] + es[k + 1..];
      forall i | 0 <= i < |r|
        ensures r[i].empleadoId != id
      {
        if i < k {
          assert r[i] == es[i];
        } else {
          assert r[i] == es[i + 1];
        }
      }
      forall i | 0 <= i < |es| && es[i].empleadoId != id
        ensures es[i] in r
      {
        if i < k {
          assert r[i] == es[i];
        } else {
          assert i != k;
          assert r[i - 1] == es[i];
        }
      }
    }
  }

  // ---------------------------------------------------------------------------
  // AccesoRepository
  // ---------------------------------------------------------------------------

  /** `create`: the row is inserted with the next autoincrement key. */
  function CreateAcceso(st: Store, a: Acceso): (r: Store)
    ensures r.accesos == st.accesos + [a.(accesoId := st.nextAccesoId)]
    ensures r.nextAccesoId == st.nextAccesoId + 1
    ensures r.areas == st.areas && r.empleados == st.empleados && r.nextEmpleadoId == st.nextEmpleadoId
  {
    st.(accesos := st.accesos + [a.(accesoId := st.nextAccesoId)], nextAccesoId := st.nextAccesoId + 1)
  }

  predicate NotOf(id: int, a: Acceso)
  {
    a.empleadoId != Some(id)
  }

  /** `delete_by_empleado_id`: drops exactly the rows of that employee. */
  function DeleteByEmpleadoId(accs: seq<Acceso>, id: int): (r: seq<Acceso>)
    ensures forall i :: 0 <= i < |r| ==> r[i] in accs && r[i].empleadoId != Some(id)
    ensures forall i :: 0 <= i < |accs| && accs[i].empleadoId != Some(id) ==> accs[i] in r
  {
    Filter(accs, a => NotOf(id, a))
  }

  /** Filtering keeps rows in key order. */
  lemma FilterKeepsAccesoOrder(accs: seq<Acceso>, next: int, p: Acceso -> bool)
    requires AccesoKeysAscending(accs, next)
    ensures AccesoKeysAscending(Filter(accs, p), next)
  {
    var r := Filter(accs, p);
    assert IncreasingBy(accs, AccesoKey);
    if |accs| > 0 {
      FilterKeepsIncreasing(accs, AccesoKey, p, accs[0].accesoId);
      assert IncreasingBy(r, AccesoKey);
    }
  }

  /** The `get_all_with_employee_info` arguments; each applies only when truthy. */
  datatype AccesoFilter = AccesoFilter(
    empleadoId: Option<int>,
    areaId: Option<string>,
    tipoAcceso: Option<string>,
    fechaInicio: Option<Timestamp>,
    fechaFin: Option<Timestamp>)

  predicate MatchesFilter(a: Acceso, f: AccesoFilter)
  {
    && (TruthyInt(f.empleadoId) ==> a.empleadoId == Some(f.empleadoId.value))
    && (Truthy(f.areaId) ==> a.areaId == f.areaId.value)
    && (Truthy(f.tipoAcceso) ==> TipoAccesoValue(a.tipoAcceso) == f.tipoAcceso.value)
    && (f.fechaInicio.Some? ==> a.fechaHora >= f.fechaInicio.value)
    && (f.fechaFin.Some? ==> a.fechaHora <= f.fechaFin.value)
  }

  /** A filter with every argument falsy (`None`, `0`, `""`) admits every row. */
  lemma FalsyFiltersIgnored(a: Acceso, f: AccesoFilter)
    requires !TruthyInt(f.empleadoId) && !Truthy(f.areaId) && !Truthy(f.tipoAcceso)
    requires f.fechaInicio.None? && f.fechaFin.None?
    ensures MatchesFilter(a, f)
  {
  }

  /** One result row: the access joined with its employee's name, DNI and role. */
  datatype AccesoRow = AccesoRow(acceso: Acceso, nombre: string, apellido: string, dni: string, rol: Rol)

  /** The inner join keeps an access only when its employee id is not NULL and
      names an existing employee. */
  predicate Joinable(es: seq<Empleado>, a: Acceso)
  {
    a.empleadoId.Some? && HasEmpleado(es, a.empleadoId.value)
  }

  function RowOf(es: seq<Empleado>, a: Acceso): (row: AccesoRow)
    requires Joinable(es, a)
  {
    var e := GetById(es, a.empleadoId.value).value;
    AccesoRow(a, e.nombre, e.apellido, e.dni, e.rol)
  }

  /** A row carries its access and the data of the employee that access names. */
  predicate RowAgrees(es: seq<Empleado>, row: AccesoRow)
  {
    && row.acceso.empleadoId.Some?
    && match GetById(es, row.acceso.empleadoId.value)
       case None => false
       case Some(e) => row.nombre == e.nombre && row.apellido == e.apellido && row.dni == e.dni && row.rol == e.rol
  }

  predicate Kept(es: seq<Empleado>, f: AccesoFilter, a: Acceso)
  {
    Joinable(es, a) && MatchesFilter(a, f)
  }

  /** The accesses that survive the join and the filters, in table order. */
  function KeptAccesos(st: Store, f: AccesoFilter): (r: seq<Acceso>)
    ensures forall i :: 0 <= i < |r| ==> r[i] in st.accesos && Kept(st.empleados, f, r[i])
    ensures forall i :: 0 <= i < |st.accesos| && Kept(st.empleados, f, st.accesos[i]) ==> st.accesos[i] in r
  {
    Filter(st.accesos, a => Kept(st.empleados, f, a))
  }

  /** The joined, filtered rows in table order, before ordering and windowing. */
  function Selected(st: Store, f: AccesoFilter): (rows: seq<AccesoRow>)
    ensures |rows| == |KeptAccesos(st, f)|
    ensures forall i :: 0 <= i < |rows| ==> rows[i].acceso == KeptAccesos(st, f)[i]
    ensures forall i :: 0 <= i < |rows| ==> RowAgrees(st.empleados, rows[i])
  {
    var kept := KeptAccesos(st, f);
    seq(|kept|, i requires 0 <= i < |kept| => RowOf(st.empleados, kept[i]))
  }

  /** `get_all_with_employee_info`: the joined rows passing every truthy
      filter, newest key first, then `OFFSET offset LIMIT limit`. It returns
      the rows only, not a count. */
  function GetAllWithEmployeeInfo(st: Store, f: AccesoFilter, limit: nat, offset: nat): (rows: seq<AccesoRow>)
    ensures |rows| <= limit
    ensures |rows| == if offset >= |Selected(st, f)| then 0 else Min(limit, |Selected(st, f)| - offset)
    ensures forall i :: 0 <= i < |rows| ==>
      && rows[i].acceso in st.accesos
      && MatchesFilter(rows[i].acceso, f)
      && RowAgrees(st.empleados, rows[i])
  {
    Window(Reverse(Selected(st, f)), offset, limit)
  }

  /** The key a listing row is ordered by. */
  function RowKey(row: AccesoRow): int
  {
    row.acceso.accesoId
  }

  /** Under autoincrement keys the result is ordered by `AccesoID` descending. */
  lemma ListingIsNewestFirst(st: Store, f: AccesoFilter, limit: nat, offset: nat)
    requires AccesoKeysAscending(st.accesos, st.nextAccesoId)
    ensures var rows := GetAllWithEmployeeInfo(st, f, limit, offset);
      forall i, j :: 0 <= i < j < |rows| ==> rows[i].acceso.accesoId > rows[j].acceso.accesoId
  {
    var kept := KeptAccesos(st, f);
    FilterKeepsAccesoOrder(st.accesos, st.nextAccesoId, a => Kept(st.empleados, f, a));
    assert AccesoKeysAscending(kept, st.nextAccesoId);
    var sel := Selected(st, f);
    assert IncreasingBy(sel, RowKey) by {
      forall i, j | 0 <= i < j < |sel|
        ensures RowKey(sel[i]) < RowKey(sel[j])
      {
        assert sel[i].acceso == kept[i] && sel[j].acceso == kept[j];
      }
    }
    WindowOfReverseDecreasing(sel, RowKey, offset, limit);
  }

  /** Every row that passes the join and the filters appears in any window
      covering its position, newest first. */
  lemma ListingCoversSelection(st: Store, f: AccesoFilter, k: nat, limit: nat, offset: nat)
    requires k < |Selected(st, f)| && offset <= k < offset + limit
    ensures var rows := GetAllWithEmployeeInfo(st, f, limit, offset);
      k - offset < |rows| && rows[k - offset] == Selected(st, f)[|Selected(st, f)| - 1 - k]
  {
    var sel := Selected(st, f);
    var rows := Window(Reverse(sel), offset, limit);
    assert rows == GetAllWithEmployeeInfo(st, f, limit, offset);
    assert rows[k - offset] == Reverse(sel)[k];
  }
}
