/**
 * The backup file formats, with the fastavro and pyarrow writers and readers abstracted to
 * what the service relies on: a lazy import that may fail, the schema a record must fit, and
 * reading back the records that were written. The Avro writer opens its file and writes the
 * container header before any record, and each block of records once it fills, so a failed
 * Avro export leaves a readable file holding the completed blocks; the Parquet writer builds
 * its table first and leaves nothing.
 */
module Codec {
  import opened Wrappers
  import opened Domain
  import opened Records
  import opened Store

  /**
   * The content of a backup file: all the records written, or the records of the blocks a
   * failed writer completed.
   */
  datatype Blob =
    | Written(format: Format, records: seq<map<string, Json>>)
    | Partial(format: Format, records: seq<map<string, Json>>)

  /**
   * Whether the lazy imports of fastavro and of pyarrow succeed, and how many records fill one
   * Avro block (fastavro measures a block in bytes against its `sync_interval`; 0 stands for a
   * block larger than any table).
   */
  datatype Codecs = Codecs(avro: bool, parquet: bool, avroBlock: nat)

  predicate Available(c: Codecs, f: Format)
  {
    match f
    case Avro => c.avro
    case Parquet => c.parquet
  }

  /**
   * The columns of table `t`, in order: the Parquet schema repeats the Avro field list, with
   * int32 columns for the Avro ints and string columns for the Avro strings.
   */
  function Columns(t: Table): (fs: seq<AvroField>)
    ensures |fs| >= 2 && fs[0] == AvroField("id", AvroInt, false)
    ensures t == Departamentos ==> fs == [AvroField("id", AvroInt, false), AvroField("departamento", AvroString, false)]
    ensures t == Trabajos ==> fs == [AvroField("id", AvroInt, false), AvroField("trabajo", AvroString, false)]
    ensures t == EmpleadosContratados ==> fs == [
      AvroField("id", AvroInt, false), AvroField("nombre", AvroString, true),
      AvroField("fecha_hora", AvroString, true), AvroField("id_departamento", AvroInt, false),
      AvroField("id_trabajo", AvroInt, false)]
  {
    AvroSchemaFor(TableName(t)).value.fields
  }

  function ColumnNames(t: Table): set<string>
  {
    set k | 0 <= k < |Columns(t)| :: Columns(t)[k].name
  }

  /** The value a record holds for a column; a missing key reads as null. */
  function ValueAt(rec: map<string, Json>, name: string): Json
  {
    if name in rec then rec[name] else JNull
  }

  /** The record as the file stores it: the table's columns only, missing ones null. */
  function Project(rec: map<string, Json>, t: Table): (p: map<string, Json>)
    ensures p.Keys == ColumnNames(t)
  {
    map name | name in ColumnNames(t) :: ValueAt(rec, name)
  }

  /** `pa.Table.from_pylist(..., schema)` accepts the value: every column is nullable, integers are int32. */
  predicate ParquetValueFits(rec: map<string, Json>, f: AvroField)
  {
    var v := ValueAt(rec, f.name);
    v == JNull
    || (f.ty == AvroInt && v.JInt? && InInt32(v.i))
    || (f.ty == AvroString && v.JStr?)
  }

  predicate FitsParquet(rec: map<string, Json>, t: Table)
  {
    forall k :: 0 <= k < |Columns(t)| ==> ParquetValueFits(rec, Columns(t)[k])
  }

  predicate Fits(f: Format, t: Table, rec: map<string, Json>)
  {
    match f
    case Avro => FitsAvro(rec, AvroSchemaFor(TableName(t)).value)
    case Parquet => FitsParquet(rec, t)
  }

  predicate AllFit(f: Format, t: Table, records: seq<map<string, Json>>)
  {
    forall k :: 0 <= k < |records| ==> Fits(f, t, records[k])
  }

  function Projected(records: seq<map<string, Json>>, t: Table): (ps: seq<map<string, Json>>)
    ensures |ps| == |records| && forall k :: 0 <= k < |records| ==> ps[k] == Project(records[k], t)
  {
    seq(|records|, k requires 0 <= k < |records| => Project(records[k], t))
  }

  /**
   * The position of the first record from `i` on that does not fit, where the writer raises;
   * `|records|` when they all fit.
   */
  function FirstUnfit(f: Format, t: Table, records: seq<map<string, Json>>, i: nat): (u: nat)
    requires i <= |records|
    ensures i <= u <= |records|
    ensures forall k :: i <= k < u ==> Fits(f, t, records[k])
    ensures u < |records| ==> !Fits(f, t, records[u])
    decreases |records| - i
  {
    if i == |records| || !Fits(f, t, records[i]) then i else FirstUnfit(f, t, records, i + 1)
  }

  /** How many of `n` records written lie in completed blocks of `block` records. */
  function Flushed(n: nat, block: nat): (m: nat)
    ensures m <= n
  {
    if block == 0 then 0 else n / block * block
  }

  /**
   * `exportar_avro_por_tabla` / `exportar_parquet_por_tabla`: the file left at the target path
   * (if any) and the number of records written, or the error.
   */
  function Export(c: Codecs, f: Format, t: Table, records: seq<map<string, Json>>): (Option<Blob>, Result<nat, Error>)
  {
    if !Available(c, f) then (None, Err(DependencyUnavailable(f)))
    else if !AllFit(f, t, records) then
      if f == Avro then
        var kept := Flushed(FirstUnfit(f, t, records, 0), c.avroBlock);
        (Some(Partial(Avro, Projected(records[..kept], t))), Err(ExportFailed(t)))
      else (None, Err(ExportFailed(t)))
    else
      (Some(Written(f, Projected(records, t))), Ok(|records|))
  }

  /**
   * `leer_avro_archivo` / `leer_parquet_archivo` on the files present: a file of the other
   * format does not read; a file of this format gives the records it holds.
   */
  function Decode(c: Codecs, files: map<string, Blob>, f: Format, path: string): Result<seq<Json>, Error>
  {
    if !Available(c, f) then Err(DependencyUnavailable(f))
    else if path !in files then Err(FileNotFound)
    else if files[path].format != f then Err(ReadFailed(f))
    else
      var records := files[path].records;
      Ok(seq(|records|, k requires 0 <= k < |records| => JObject(records[k])))
  }

  /**
   * What a successful export writes is read back in the same format: one mapping per record,
   * holding the record's values for the table's columns, and the count returned is the number
   * of records.
   */
  lemma ExportDecode(c: Codecs, f: Format, t: Table, records: seq<map<string, Json>>, files: map<string, Blob>, path: string)
    requires Export(c, f, t, records).1.Ok?
    ensures Export(c, f, t, records).0.Some?
    ensures var files' := files[path := Export(c, f, t, records).0.value];
      var d := Decode(c, files', f, path);
      && Export(c, f, t, records).1.value == |records|
      && d.Ok? && |d.value| == |records|
      && forall k :: 0 <= k < |records| ==> d.value[k] == JObject(Project(records[k], t))
  {
  }

  /**
   * An export fails only when its library is missing or a record does not fit; only Avro
   * leaves a file then, and that file reads back as a proper prefix of the projected records,
   * all of which fit.
   */
  lemma ExportFailure(c: Codecs, f: Format, t: Table, records: seq<map<string, Json>>, files: map<string, Blob>, path: string)
    ensures Export(c, f, t, records).1.Err? <==> !Available(c, f) || !AllFit(f, t, records)
    ensures Export(c, f, t, records).1.Err? ==>
      (Export(c, f, t, records).0.Some? <==> Available(c, f) && f == Avro)
    ensures Export(c, f, t, records).0.Some? && Export(c, f, t, records).1.Err? ==>
      var d := Decode(c, files[path := Export(c, f, t, records).0.value], f, path);
      && d.Ok? && |d.value| < |records|
      && forall k :: 0 <= k < |d.value| ==> Fits(f, t, records[k]) && d.value[k] == JObject(Project(records[k], t))
  {
    if Available(c, f) && !AllFit(f, t, records) && f == Avro {
      var u := FirstUnfit(f, t, records, 0);
      assert u < |records|;
    }
  }

  /**
   * A failed Avro export of fewer records than one block leaves only the header: the file reads
   * as no records at all, not as a failure.
   */
  lemma PartialBeforeFirstBlock(c: Codecs, t: Table, records: seq<map<string, Json>>, files: map<string, Blob>, path: string)
    requires c.avro && !AllFit(Avro, t, records) && (c.avroBlock == 0 || |records| < c.avroBlock)
    ensures Export(c, Avro, t, records).1 == Err(ExportFailed(t))
    ensures Decode(c, files[path := Export(c, Avro, t, records).0.value], Avro, path) == Ok([])
  {
    var u := FirstUnfit(Avro, t, records, 0);
    FlushedBelowBlock(u, c.avroBlock);
    assert Projected(records[..0], t) == [];
    var files' := files[path := Export(c, Avro, t, records).0.value];
    assert files'[path] == Partial(Avro, []);
    assert |Decode(c, files', Avro, path).value| == 0;
  }

  lemma FlushedBelowBlock(n: nat, block: nat)
    requires block == 0 || n < block
    ensures Flushed(n, block) == 0
  {
    if block != 0 {
      assert n / block == 0;
    }
  }

  /** A record with exactly the table's columns is stored as it is. */
  lemma ProjectIdentity(rec: map<string, Json>, t: Table)
    requires rec.Keys == ColumnNames(t)
    ensures Project(rec, t) == rec
  {
  }

  /**
   * The exported dictionary of a stored row has the table's columns, and fits each format: Parquet
   * always (the store's integers are 32-bit), Avro unless it is an employee with a null foreign key.
   */
  lemma ExportedRowFits(t: Table, r: Row, dc: DateCodec)
    requires RowOf(t, r) && ColumnsFit(r)
    ensures ExportRecord(r, dc).Keys == ColumnNames(t)
    ensures Fits(Parquet, t, ExportRecord(r, dc))
    ensures Fits(Avro, t, ExportRecord(r, dc)) <==> !r.Employee? || (r.idDepartamento.Some? && r.idTrabajo.Some?)
  {
    ExportFitsAvro(t, r, dc);
    assert ColumnNames(t) == set k | 0 <= k < |Columns(t)| :: AvroSchemaFor(TableName(t)).value.fields[k].name;
    match t
    case Departamentos => ParquetFitsCatalog(t, r, dc);
    case Trabajos => ParquetFitsCatalog(t, r, dc);
    case EmpleadosContratados => ParquetFitsEmployee(r, dc);
  }

  lemma ParquetFitsCatalog(t: Table, r: Row, dc: DateCodec)
    requires t != EmpleadosContratados && RowOf(t, r) && ColumnsFit(r)
    ensures Fits(Parquet, t, ExportRecord(r, dc))
  {
    var rec := ExportRecord(r, dc);
    var cs := Columns(t);
    forall k | 0 <= k < |cs| ensures ParquetValueFits(rec, cs[k]) {
      assert k == 0 || k == 1;
    }
  }

  lemma ParquetFitsEmployee(r: Row, dc: DateCodec)
    requires RowOf(EmpleadosContratados, r) && ColumnsFit(r)
    ensures Fits(Parquet, EmpleadosContratados, ExportRecord(r, dc))
  {
    var rec := ExportRecord(r, dc);
    var cs := Columns(EmpleadosContratados);
    forall k | 0 <= k < |cs| ensures ParquetValueFits(rec, cs[k]) {
      assert k in {0, 1, 2, 3, 4};
    }
  }
}
