/** The rows of the `areas`, `empleados` and `accesos` tables and the
    enumerations their columns draw from (models/database.py, models/enums.py).
    Declarations only: the operations over them live in the modules that follow
    the services. */
module Schema {
  import opened Common

  datatype Rol = Supervisor | Operario | JefeTurno | ControlCalidad | Mantenimiento | Administracion

  datatype EstadoEmpleado = Activo | Inactivo | Suspendido

  datatype TipoAcceso = Ingreso | Egreso

  /** `MetodoAccesoEnum` of models/enums.py (the legacy schema adds `Manual`). */
  datatype MetodoAcceso = Facial | Pin

  /** The string value of a `TipoAccesoEnum` member, as compared in SQL filters. */
  function TipoAccesoValue(t: TipoAcceso): string
  {
    match t
    case Ingreso => "Ingreso"
    case Egreso => "Egreso"
  }

  /** An instant; the service stores `datetime.now(timezone.utc)` and filters
      by parsed ISO dates, both modelled as points on one time line. */
  type Timestamp = int

  datatype Area = Area(areaId: string, nombre: string, descripcion: string, estado: string)

  /** One `empleados` row. `datosBiometricos` is the plaintext JSON template the
      matcher reads; `vectorCifrado`/`iv` are the encrypted columns, which no
      modelled operation reads. */
  datatype Empleado = Empleado(
    empleadoId: int,
    nombre: string,
    apellido: string,
    dni: string,
    fechaNacimiento: string,
    email: string,
    rol: Rol,
    estadoEmpleado: EstadoEmpleado,
    areaId: string,
    pin: Option<string>,
    datosBiometricos: Option<string>,
    vectorCifrado: Option<string>,
    iv: Option<string>,
    estado: string,
    fechaRegistro: string)

  /** One `accesos` row of the service schema. */
  datatype Acceso = Acceso(
    accesoId: int,
    empleadoId: Option<int>,
    areaId: string,
    fechaHora: Timestamp,
    tipoAcceso: TipoAcceso,
    metodoAcceso: MetodoAcceso,
    dispositivo: string,
    confianza: Option<real>,
    accesoPermitido: string)

  const Permitido: string := "Permitido"

  /** An `HTTPException(status_code, detail)` as it reaches the client. */
  datatype HttpError = HttpError(status: int, detail: string)

  /** What the web framework answers for an exception that is not an `HTTPException`. */
  const UnhandledError: HttpError := HttpError(500, "Internal Server Error")
}
