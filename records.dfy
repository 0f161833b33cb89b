/**
 * The record models RegistroDepartamento, RegistroTrabajo and RegistroEmpleado: per-field
 * coercion and constraint checks (pydantic, lax mode), the dictionary a stored row is
 * exported as, and the Avro schema written for each table.
 */
module Records {
  import opened Wrappers
  import opened Text
  import opened Domain

  /** The declared constraints: positive ids, bounded names, positive foreign keys when present. */
  predicate MeetsConstraints(r: Row)
  {
    match r
    case Department(id, name) => id > 0 && 1 <= |name| <= 50
    case Job(id, title) => id > 0 && 1 <= |title| <= 200
    case Employee(id, nombre, _, dep, job) =>
      && id > 0
      && (nombre.Some? ==> |nombre.value| <= 100)
      && (dep.Some? ==> dep.value > 0)
      && (job.Some? ==> job.value > 0)
  }

  /** Kinds of validation error pydantic reports for these models. */
  datatype IssueKind =
    | Missing | IntType | IntParsing | IntParsingSize | IntFromFloat | GreaterThan
    | StringType | StringTooShort | StringTooLong | DatetimeInvalid

  /** One entry of `ValidationError.errors()`: the field and what is wrong with it. */
  datatype Issue = Issue(field: string, kind: IssueKind)

  /** The longest stripped string pydantic reads as an `int`. */
  const MaxIntText := 4300

  /**
   * Lax coercion to `int`: ints as they are, booleans as 0 and 1, integral floats, and strings
   * as `LaxInt` reads them; a string is only ever read from one of its digits.
   */
  function CoerceInt(v: Json): (r: Result<int, IssueKind>)
    ensures v.JInt? ==> r == Ok(v.i)
    ensures v.JNull? || v.JList? || v.JObject? ==> r == Err(IntType)
    ensures v.JStr? && r.Ok? ==> HasDigit(v.s)
  {
    match v
    case JInt(i) => Ok(i)
    case JBool(b) => Ok(if b then 1 else 0)
    case JFloat(x) => CoerceFloat(x)
    case JStr(s) => CoerceText(s)
    case _ => Err(IntType)
  }

  /** The float case of `CoerceInt`: only an integral value is accepted. */
  function CoerceFloat(x: real): (r: Result<int, IssueKind>)
    ensures r.Ok? <==> x.Floor as real == x
    ensures r.Ok? ==> r.value as real == x
  {
    if x.Floor as real == x then Ok(x.Floor) else Err(IntFromFloat)
  }

  /** The string case of `CoerceInt`: too long once stripped, or what `LaxInt` reads. */
  function CoerceText(s: string): (r: Result<int, IssueKind>)
    ensures r.Ok? ==> HasDigit(s)
  {
    if |Strip(s)| > MaxIntText then Err(IntParsingSize)
    else match LaxInt(s)
      case Some(n) => Ok(n)
      case None => Err(IntParsing)
  }

  /** Booleans coerce to 0 and 1, and a float only when it is integral, to that integer. */
  lemma CoerceIntOfNumbers(n: int, x: real)
    ensures CoerceInt(JBool(true)) == Ok(1) && CoerceInt(JBool(false)) == Ok(0)
    ensures CoerceInt(JFloat(x)).Ok? <==> x.Floor as real == x
    ensures CoerceInt(JFloat(n as real)) == Ok(n)
  {
    assert (n as real).Floor == n;
  }

  /** The decimal text of an integer, with blanks around it, coerces to that integer. */
  lemma CoerceIntPadded(n: int, pre: string, post: string)
    requires AllSpace(pre) && AllSpace(post) && |DecimalString(n)| <= MaxIntText
    ensures CoerceInt(JStr(pre + DecimalString(n) + post)) == Ok(n)
  {
    LaxIntPadded(n, pre, post);
    PaddedStrip(n, pre, post);
    CoerceIntOfLax(pre + DecimalString(n) + post);
  }

  /** The decimal text of an integer followed by `.0` coerces to that integer. */
  lemma CoerceIntZeroFraction(n: int)
    requires |DecimalString(n)| + 2 <= MaxIntText
    ensures CoerceInt(JStr(DecimalString(n) + ".0")) == Ok(n)
  {
    LaxIntZeroFraction(n);
    var t := DecimalString(n) + ".0";
    DecimalShape(n);
    assert t[|t| - 1] == '0' && t[0] == DecimalString(n)[0];
    StripIdentity(t);
    CoerceIntOfLax(t);
  }

  /** A string of acceptable length coerces to what `LaxInt` reads in it. */
  lemma CoerceIntOfLax(u: string)
    requires |Strip(u)| <= MaxIntText && LaxInt(u).Some?
    ensures CoerceInt(JStr(u)) == Ok(LaxInt(u).value)
  {
    var n := LaxInt(u).value;
    assert CoerceText(u) == Ok(n);
  }

  /** A required `int` field with `gt=0`. */
  function PositiveInt(fields: map<string, Json>, name: string): (r: Result<int, Issue>)
    ensures r.Ok? <==> name in fields && CoerceInt(fields[name]).Ok? && CoerceInt(fields[name]).value > 0
    ensures r.Ok? ==> r.value == CoerceInt(fields[name]).value
    ensures r.Err? ==> r.error.field == name
    ensures name !in fields ==> r == Err(Issue(name, Missing))
    ensures name in fields && CoerceInt(fields[name]).Err? ==> r.error.kind == CoerceInt(fields[name]).error
  {
    if name !in fields then Err(Issue(name, Missing))
    else match CoerceInt(fields[name])
      case Err(k) => Err(Issue(name, k))
      case Ok(n) => if n > 0 then Ok(n) else Err(Issue(name, GreaterThan))
  }

  /** An `Optional[int]` field with `gt=0`: absent or null means None. */
  function OptionalPositiveInt(fields: map<string, Json>, name: string): (r: Result<Option<int>, Issue>)
    ensures r.Ok? && r.value.None? <==> name !in fields || fields[name] == JNull
    ensures r.Ok? && r.value.Some? <==>
      name in fields && fields[name] != JNull && CoerceInt(fields[name]).Ok? && CoerceInt(fields[name]).value > 0
    ensures r.Ok? && r.value.Some? ==> r.value.value == CoerceInt(fields[name]).value
    ensures r.Err? ==> r.error.field == name
  {
    if name !in fields || fields[name] == JNull then Ok(None)
    else match CoerceInt(fields[name])
      case Err(k) => Err(Issue(name, k))
      case Ok(n) => if n > 0 then Ok(Some(n)) else Err(Issue(name, GreaterThan))
  }

  /** A required `constr(min_length, max_length)` field; only strings are accepted. */
  function BoundedString(fields: map<string, Json>, name: string, minLen: nat, maxLen: nat): (r: Result<string, Issue>)
    ensures r.Ok? <==> name in fields && fields[name].JStr? && minLen <= |fields[name].s| <= maxLen
    ensures r.Ok? ==> r.value == fields[name].s
    ensures r.Err? ==> r.error.field == name
  {
    if name !in fields then Err(Issue(name, Missing))
    else match fields[name]
      case JStr(s) =>
        if |s| < minLen then Err(Issue(name, StringTooShort))
        else if |s| > maxLen then Err(Issue(name, StringTooLong))
        else Ok(s)
      case _ => Err(Issue(name, StringType))
  }

  /** An `Optional[constr(max_length)]` field. */
  function OptionalString(fields: map<string, Json>, name: string, maxLen: nat): (r: Result<Option<string>, Issue>)
    ensures r.Ok? && r.value.None? <==> name !in fields || fields[name] == JNull
    ensures r.Ok? && r.value.Some? <==> name in fields && fields[name].JStr? && |fields[name].s| <= maxLen
    ensures r.Ok? && r.value.Some? ==> r.value.value == fields[name].s
    ensures r.Err? ==> r.error.field == name
  {
    if name !in fields || fields[name] == JNull then Ok(None)
    else match fields[name]
      case JStr(s) => if |s| > maxLen then Err(Issue(name, StringTooLong)) else Ok(Some(s))
      case _ => Err(Issue(name, StringType))
  }

  /** An `Optional[datetime]` field, parsed by the date codec. */
  function OptionalDateTime(fields: map<string, Json>, name: string, dc: DateCodec): (r: Result<Option<Instant>, Issue>)
    ensures r.Ok? && r.value.None? <==> name !in fields || fields[name] == JNull
    ensures r.Err? <==> name in fields && fields[name] != JNull && dc.parse(fields[name]).None?
    ensures r.Ok? && r.value.Some? ==> name in fields && dc.parse(fields[name]) == r.value
    ensures r.Err? ==> r.error == Issue(name, DatetimeInvalid)
  {
    if name !in fields || fields[name] == JNull then Ok(None)
    else match dc.parse(fields[name])
      case Some(t) => Ok(Some(t))
      case None => Err(Issue(name, DatetimeInvalid))
  }

  function IssuesOf<T>(r: Result<T, Issue>): seq<Issue>
  {
    if r.Err? then [r.error] else []
  }

  /**
   * `modelo(**item)` for the table's model: either a typed row or every field error, in
   * field declaration order. Unknown keys are ignored.
   */
  function Validate(t: Table, fields: map<string, Json>, dc: DateCodec): (r: Result<Row, seq<Issue>>)
    ensures r.Ok? ==> RowOf(t, r.value) && MeetsConstraints(r.value)
    ensures r.Err? ==> |r.error| >= 1
    ensures "id" !in fields ==> r.Err? && Issue("id", Missing) in r.error
  {
    match t
    case Departamentos =>
      var id := PositiveInt(fields, "id");
      var name := BoundedString(fields, "departamento", 1, 50);
      if id.Ok? && name.Ok? then Ok(Department(id.value, name.value))
      else Err(IssuesOf(id) + IssuesOf(name))
    case Trabajos =>
      var id := PositiveInt(fields, "id");
      var title := BoundedString(fields, "trabajo", 1, 200);
      if id.Ok? && title.Ok? then Ok(Job(id.value, title.value))
      else Err(IssuesOf(id) + IssuesOf(title))
    case EmpleadosContratados =>
      var id := PositiveInt(fields, "id");
      var nombre := OptionalString(fields, "nombre", 100);
      var fecha := OptionalDateTime(fields, "fecha_hora", dc);
      var dep := OptionalPositiveInt(fields, "id_departamento");
      var job := OptionalPositiveInt(fields, "id_trabajo");
      if id.Ok? && nombre.Ok? && fecha.Ok? && dep.Ok? && job.Ok? then
        Ok(Employee(id.value, nombre.value, fecha.value, dep.value, job.value))
      else
        Err(IssuesOf(id) + IssuesOf(nombre) + IssuesOf(fecha) + IssuesOf(dep) + IssuesOf(job))
  }

  /**
   * A department record is accepted exactly when its `id` and `departamento` both pass; the row
   * then holds the coerced id and the name, and otherwise the errors are those of the failing
   * fields, `id` first.
   */
  lemma ValidateDepartment(fields: map<string, Json>, dc: DateCodec)
    ensures var r := Validate(Departamentos, fields, dc);
      var id := PositiveInt(fields, "id");
      var name := BoundedString(fields, "departamento", 1, 50);
      && (r.Ok? <==> id.Ok? && name.Ok?)
      && (r.Ok? ==> r.value == Department(CoerceInt(fields["id"]).value, fields["departamento"].s))
      && (r.Err? ==> r.error == IssuesOf(id) + IssuesOf(name))
  {
  }

  /**
   * A job record is accepted exactly when its `id` and `trabajo` both pass; the row then holds
   * the coerced id and the title, and otherwise the errors are those of the failing fields,
   * `id` first.
   */
  lemma ValidateJob(fields: map<string, Json>, dc: DateCodec)
    ensures var r := Validate(Trabajos, fields, dc);
      var id := PositiveInt(fields, "id");
      var title := BoundedString(fields, "trabajo", 1, 200);
      && (r.Ok? <==> id.Ok? && title.Ok?)
      && (r.Ok? ==> r.value == Job(CoerceInt(fields["id"]).value, fields["trabajo"].s))
      && (r.Err? ==> r.error == IssuesOf(id) + IssuesOf(title))
  {
  }

  /**
   * An employee record is accepted exactly when each of its five fields passes; the row then
   * holds the field values, and otherwise the errors are those of the failing fields in
   * declaration order.
   */
  lemma ValidateEmployee(fields: map<string, Json>, dc: DateCodec)
    ensures var r := Validate(EmpleadosContratados, fields, dc);
      var id := PositiveInt(fields, "id");
      var nombre := OptionalString(fields, "nombre", 100);
      var fecha := OptionalDateTime(fields, "fecha_hora", dc);
      var dep := OptionalPositiveInt(fields, "id_departamento");
      var job := OptionalPositiveInt(fields, "id_trabajo");
      && (r.Ok? <==> id.Ok? && nombre.Ok? && fecha.Ok? && dep.Ok? && job.Ok?)
      && (r.Ok? ==> r.value == Employee(CoerceInt(fields["id"]).value, nombre.value, fecha.value, dep.value, job.value))
      && (r.Err? ==> r.error == IssuesOf(id) + IssuesOf(nombre) + IssuesOf(fecha) + IssuesOf(dep) + IssuesOf(job))
  {
  }

  function OptStr(o: Option<string>): Json
  {
    if o.Some? then JStr(o.value) else JNull
  }

  function OptInt(o: Option<int>): Json
  {
    if o.Some? then JInt(o.value) else JNull
  }

  /** The dictionary `SELECT *` gives for a row, with the timestamp turned into ISO-8601 text. */
  function ExportRecord(r: Row, dc: DateCodec): map<string, Json>
  {
    match r
    case Department(id, name) => map["id" := JInt(id), "departamento" := JStr(name)]
    case Job(id, title) => map["id" := JInt(id), "trabajo" := JStr(title)]
    case Employee(id, nombre, fecha, dep, job) =>
      map["id" := JInt(id), "nombre" := OptStr(nombre),
          "fecha_hora" := (if fecha.Some? then JStr(dc.iso(fecha.value)) else JNull),
          "id_departamento" := OptInt(dep), "id_trabajo" := OptInt(job)]
  }

  /**
   * A stored row that meets the model's constraints validates back to itself once exported:
   * the export and the validator are inverse on valid rows.
   */
  lemma ValidateExport(t: Table, r: Row, dc: DateCodec)
    requires RowOf(t, r) && MeetsConstraints(r)
    requires Canonical(dc)
    ensures Validate(t, ExportRecord(r, dc), dc) == Ok(r)
  {
    if r.Employee? {
      ValidateExportEmployee(r, dc);
    } else {
      ValidateExportCatalog(t, r, dc);
    }
  }

  lemma ValidateExportCatalog(t: Table, r: Row, dc: DateCodec)
    requires RowOf(t, r) && MeetsConstraints(r) && !r.Employee?
    ensures Validate(t, ExportRecord(r, dc), dc) == Ok(r)
  {
    if r.Department? {
      assert t == Departamentos;
    } else {
      assert t == Trabajos;
    }
  }

  lemma ValidateExportEmployee(r: Row, dc: DateCodec)
    requires RowOf(EmpleadosContratados, r) && MeetsConstraints(r)
    requires Canonical(dc)
    ensures Validate(EmpleadosContratados, ExportRecord(r, dc), dc) == Ok(r)
  {
    var f := ExportRecord(r, dc);
    EmployeeRecordFields(r, dc);
    assert PositiveInt(f, "id") == Ok(r.id);
    assert OptionalString(f, "nombre", 100) == Ok(r.nombre);
    if r.fechaHora.Some? {
      CanonicalAt(dc, r.fechaHora.value);
    }
    assert OptionalDateTime(f, "fecha_hora", dc) == Ok(r.fechaHora);
    assert OptionalPositiveInt(f, "id_departamento") == Ok(r.idDepartamento);
    assert OptionalPositiveInt(f, "id_trabajo") == Ok(r.idTrabajo);
  }

  /** The five entries of an employee's exported dictionary. */
  lemma EmployeeRecordFields(r: Row, dc: DateCodec)
    requires r.Employee?
    ensures var f := ExportRecord(r, dc);
      && "id" in f && f["id"] == JInt(r.id)
      && "nombre" in f && f["nombre"] == OptStr(r.nombre)
      && "fecha_hora" in f && f["fecha_hora"] == (if r.fechaHora.Some? then JStr(dc.iso(r.fechaHora.value)) else JNull)
      && "id_departamento" in f && f["id_departamento"] == OptInt(r.idDepartamento)
      && "id_trabajo" in f && f["id_trabajo"] == OptInt(r.idTrabajo)
  {
  }

  lemma CanonicalAt(dc: DateCodec, t: Instant)
    requires Canonical(dc)
    ensures dc.parse(JStr(dc.iso(t))) == Some(t)
  {
  }

  // ---------------------------------------------------------------------------
  // Avro schema per table

  datatype AvroType = AvroInt | AvroString

  /** A record field; `nullable` is the `['null', T]` union. */
  datatype AvroField = AvroField(name: string, ty: AvroType, nullable: bool)

  datatype AvroSchema = AvroSchema(name: string, fields: seq<AvroField>)

  /** The schema written for a table; an unknown table name is rejected. */
  function AvroSchemaFor(tabla: string): (r: Result<AvroSchema, Error>)
    ensures r.Ok? <==> TableNamed(tabla).Some?
    ensures r.Ok? ==> r.value.name == tabla && |r.value.fields| >= 2 && r.value.fields[0] == AvroField("id", AvroInt, false)
    ensures r.Err? ==> r.error == UnsupportedTable
  {
    if tabla == "departamentos" then
      Ok(AvroSchema("departamentos", [AvroField("id", AvroInt, false), AvroField("departamento", AvroString, false)]))
    else if tabla == "trabajos" then
      Ok(AvroSchema("trabajos", [AvroField("id", AvroInt, false), AvroField("trabajo", AvroString, false)]))
    else if tabla == "empleados_contratados" then
      Ok(AvroSchema("empleados_contratados", [
        AvroField("id", AvroInt, false),
        AvroField("nombre", AvroString, true),
        AvroField("fecha_hora", AvroString, true),
        AvroField("id_departamento", AvroInt, false),
        AvroField("id_trabajo", AvroInt, false)]))
    else Err(UnsupportedTable)
  }

  /** Field value accepted by the writer for one Avro field (a missing key reads as null). */
  predicate AvroValueFits(rec: map<string, Json>, f: AvroField)
  {
    var v := if f.name in rec then rec[f.name] else JNull;
    if v == JNull then f.nullable
    else match f.ty
      case AvroInt => v.JInt?
      case AvroString => v.JStr?
  }

  predicate FitsAvro(rec: map<string, Json>, schema: AvroSchema)
  {
    forall k :: 0 <= k < |schema.fields| ==> AvroValueFits(rec, schema.fields[k])
  }

  /**
   * The exported dictionary of a row has exactly the schema's fields, and it fits the Avro schema
   * unless it is an employee with a null foreign key, which the non-nullable `int` fields cannot hold.
   */
  lemma ExportFitsAvro(t: Table, r: Row, dc: DateCodec)
    requires RowOf(t, r)
    ensures AvroSchemaFor(TableName(t)).Ok?
    ensures var s := AvroSchemaFor(TableName(t)).value;
      ExportRecord(r, dc).Keys == set k | 0 <= k < |s.fields| :: s.fields[k].name
    ensures FitsAvro(ExportRecord(r, dc), AvroSchemaFor(TableName(t)).value)
      <==> !r.Employee? || (r.idDepartamento.Some? && r.idTrabajo.Some?)
  {
    match t
    case Departamentos => AvroFitsCatalog(t, r, dc);
    case Trabajos => AvroFitsCatalog(t, r, dc);
    case EmpleadosContratados => AvroFitsEmployee(r, dc);
  }

  lemma AvroFitsCatalog(t: Table, r: Row, dc: DateCodec)
    requires t != EmpleadosContratados && RowOf(t, r)
    ensures AvroSchemaFor(TableName(t)).Ok?
    ensures var s := AvroSchemaFor(TableName(t)).value;
      && ExportRecord(r, dc).Keys == (set k | 0 <= k < |s.fields| :: s.fields[k].name)
      && FitsAvro(ExportRecord(r, dc), s)
  {
    var s := AvroSchemaFor(TableName(t)).value;
    var rec := ExportRecord(r, dc);
    if t == Departamentos {
      assert s.fields[0].name == "id" && s.fields[1].name == "departamento";
    } else {
      assert s.fields[0].name == "id" && s.fields[1].name == "trabajo";
    }
    forall k | 0 <= k < |s.fields| ensures AvroValueFits(rec, s.fields[k]) {
      assert k == 0 || k == 1;
    }
  }

  lemma AvroFitsEmployee(r: Row, dc: DateCodec)
    requires RowOf(EmpleadosContratados, r)
    ensures AvroSchemaFor(TableName(EmpleadosContratados)).Ok?
    ensures var s := AvroSchemaFor(TableName(EmpleadosContratados)).value;
      && ExportRecord(r, dc).Keys == (set k | 0 <= k < |s.fields| :: s.fields[k].name)
      && (FitsAvro(ExportRecord(r, dc), s) <==> r.idDepartamento.Some? && r.idTrabajo.Some?)
  {
    EmployeeSchemaNames();
    AvroEmployeeFits(r, dc);
  }

  /** The employee schema's field names are the five columns of the table. */
  lemma EmployeeSchemaNames()
    ensures AvroSchemaFor(TableName(EmpleadosContratados)).Ok?
    ensures var s := AvroSchemaFor(TableName(EmpleadosContratados)).value;
      (set k | 0 <= k < |s.fields| :: s.fields[k].name) == {"id", "nombre", "fecha_hora", "id_departamento", "id_trabajo"}
  {
    var s := AvroSchemaFor(TableName(EmpleadosContratados)).value;
    assert s.fields[0].name == "id" && s.fields[1].name == "nombre" && s.fields[2].name == "fecha_hora";
    assert s.fields[3].name == "id_departamento" && s.fields[4].name == "id_trabajo";
    assert forall k :: 0 <= k < 5 ==> s.fields[k].name in {"id", "nombre", "fecha_hora", "id_departamento", "id_trabajo"};
  }

  /** An exported employee fits the Avro schema exactly when both foreign keys are present. */
  lemma AvroEmployeeFits(r: Row, dc: DateCodec)
    requires r.Employee?
    ensures AvroSchemaFor(TableName(EmpleadosContratados)).Ok?
    ensures FitsAvro(ExportRecord(r, dc), AvroSchemaFor(TableName(EmpleadosContratados)).value)
            <==> r.idDepartamento.Some? && r.idTrabajo.Some?
  {
    var s := AvroSchemaFor(TableName(EmpleadosContratados)).value;
    var rec := ExportRecord(r, dc);
    EmployeeRecordFields(r, dc);
    assert AvroValueFits(rec, s.fields[0]) && AvroValueFits(rec, s.fields[1]) && AvroValueFits(rec, s.fields[2]);
    assert AvroValueFits(rec, s.fields[3]) <==> r.idDepartamento.Some?;
    assert AvroValueFits(rec, s.fields[4]) <==> r.idTrabajo.Some?;
    assert |s.fields| == 5;
  }
}
