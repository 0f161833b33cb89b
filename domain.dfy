/**
 * The entities shared by the ingestion, backup and restore code: the three tables, the
 * JSON-like values that arrive in request bodies and backup files, typed rows, the two
 * backup formats and the errors that abort a request.
 */
module Domain {
  import opened Wrappers

  /** The keys of the table registry: departments, jobs and hired employees. */
  datatype Table = Departamentos | Trabajos | EmpleadosContratados

  /** The registry's keys in their declaration order, which is also the order groups are processed in. */
  const ValidTables: seq<Table> := [Departamentos, Trabajos, EmpleadosContratados]

  function TableName(t: Table): string
  {
    match t
    case Departamentos => "departamentos"
    case Trabajos => "trabajos"
    case EmpleadosContratados => "empleados_contratados"
  }

  /** Membership test `tabla in TABLAS_VALIDAS`, returning the table named. */
  function TableNamed(s: string): (r: Option<Table>)
    ensures r.Some? ==> TableName(r.value) == s
    ensures r.None? ==> forall t :: TableName(t) != s
  {
    if s == "departamentos" then Some(Departamentos)
    else if s == "trabajos" then Some(Trabajos)
    else if s == "empleados_contratados" then Some(EmpleadosContratados)
    else None
  }

  /** The position of a table in the registry. */
  function Position(t: Table): (i: nat)
    ensures i < |ValidTables| && ValidTables[i] == t
  {
    match t
    case Departamentos => 0
    case Trabajos => 1
    case EmpleadosContratados => 2
  }

  /** A decoded JSON value (a request body or a record read back from a backup file). */
  datatype Json =
    | JNull
    | JBool(b: bool)
    | JInt(i: int)
    | JFloat(x: real)
    | JStr(s: string)
    | JList(items: seq<Json>)
    | JObject(fields: map<string, Json>)

  /** Python truthiness (`bool(v)`, and the operand test of `v or default`). */
  predicate Truthy(v: Json)
  {
    match v
    case JNull => false
    case JBool(b) => b
    case JInt(i) => i != 0
    case JFloat(x) => x != 0.0
    case JStr(s) => s != ""
    case JList(items) => items != []
    case JObject(fields) => fields != map[]
  }

  /** `payload.get(key)`: a missing key reads as None. */
  function Get(payload: map<string, Json>, key: string): (v: Json)
    ensures key !in payload ==> v == JNull
    ensures key in payload ==> v == payload[key]
  {
    if key in payload then payload[key] else JNull
  }

  /** The table a raw `tabla` value names, if it names one. */
  function TableOf(v: Json): (r: Option<Table>)
    ensures r.Some? ==> v == JStr(TableName(r.value))
    ensures forall t :: v == JStr(TableName(t)) ==> r == Some(t)
  {
    if v.JStr? then TableNamed(v.s) else None
  }

  /** Values Python can hash: a list or dict used as a key or as a set member raises a TypeError. */
  predicate Hashable(v: Json)
  {
    !v.JList? && !v.JObject?
  }

  /** A timestamp as the database stores it (the model does not look inside it). */
  type Instant = int

  /**
   * The foreign date handling: `parse` is pydantic's datetime validation of a raw value and
   * `iso` is `datetime.isoformat()`, used when a table is exported.
   */
  datatype DateCodec = DateCodec(parse: Json -> Option<Instant>, iso: Instant -> string)

  /** The parser reads back what `isoformat` writes. */
  ghost predicate Canonical(dc: DateCodec)
  {
    forall t :: dc.parse(JStr(dc.iso(t))) == Some(t)
  }

  /** A typed row of one of the three tables; `id` is the primary key of each. */
  datatype Row =
    | Department(id: int, departamento: string)
    | Job(id: int, trabajo: string)
    | Employee(id: int, nombre: Option<string>, fechaHora: Option<Instant>,
               idDepartamento: Option<int>, idTrabajo: Option<int>)

  /** The row has the shape of the table's record model. */
  predicate RowOf(t: Table, r: Row)
  {
    match t
    case Departamentos => r.Department?
    case Trabajos => r.Job?
    case EmpleadosContratados => r.Employee?
  }

  /** The two interchangeable backup codecs. */
  datatype Format = Avro | Parquet

  /** File extension written for a format. */
  function Extension(f: Format): string
  {
    match f
    case Avro => "avro"
    case Parquet => "parquet"
  }

  /** `formato in {"avro", "parquet"}`. */
  function FormatOf(v: Json): (r: Option<Format>)
    ensures r.Some? ==> v == JStr(Extension(r.value))
    ensures r.None? ==> forall f :: v != JStr(Extension(f))
  {
    if v == JStr("avro") then Some(Avro) else if v == JStr("parquet") then Some(Parquet) else None
  }

  /** Request-level failures: each aborts the request it occurs in. */
  datatype Error =
    | UnsupportedTable
    | NotAList(key: string)
    | Unhashable
    | EmptyPayload
    | BatchSizeOutOfRange(size: nat)
    | NotAMapping(index: nat)
    | UpsertFailed(table: Table)
    | DeleteFailed(table: Table)
    | InvalidFormat
    | InvalidTableList
    | InvalidDirectory
    | InvalidFilePath
    | NotADirectory
    | DependencyUnavailable(format: Format)
    | FileNotFound
    | ReadFailed(format: Format)
    | ExportFailed(table: Table)
    | NoBackups(table: Table)
}
