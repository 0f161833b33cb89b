/**
 * `restaurar` feeds the records of a backup file through the ingestion steps (parse, quality
 * rules, upsert) without the 1..1000 batch bound; `limpiar_tabla` deletes a table only when the
 * locator reports a backup of it.
 */
module Restore {
  import opened Wrappers
  import opened Domain
  import opened Records
  import opened Parsing
  import opened Quality
  import opened Store
  import opened Ingest
  import opened Codec
  import opened Locator
  import opened Backups

  /** The response of a restore. */
  datatype Restored = Restored(tabla: Table, restaurados: nat, recibidos: nat, validos: nat,
                               erroresModelo: seq<RecordError>, erroresCalidad: seq<RecordError>)

  /** A checked restore request. */
  datatype RestoreOrder = RestoreOrder(formato: Format, tabla: Table, archivo: string)

  /** The checks of `formato`, `tabla` and `archivo`, in that order. */
  function RestoreRequest(payload: map<string, Json>): (r: Result<RestoreOrder, Error>)
    ensures r.Ok? ==>
      && Get(payload, "formato") == JStr(Extension(r.value.formato))
      && Get(payload, "tabla") == JStr(TableName(r.value.tabla))
      && Get(payload, "archivo") == JStr(r.value.archivo) && r.value.archivo != ""
    ensures r.Err? ==>
      || FormatOf(Get(payload, "formato")).None?
      || TableOf(Get(payload, "tabla")).None?
      || !Get(payload, "archivo").JStr? || Get(payload, "archivo").s == ""
  {
    var formato := Get(payload, "formato");
    if !Hashable(formato) then Err(Unhashable)
    else
      match FormatOf(formato)
      case None => Err(InvalidFormat)
      case Some(f) =>
        var tabla := Get(payload, "tabla");
        if !Hashable(tabla) then Err(Unhashable)
        else
          match TableOf(tabla)
          case None => Err(UnsupportedTable)
          case Some(t) =>
            var archivo := Get(payload, "archivo");
            if !archivo.JStr? || archivo.s == "" then Err(InvalidFilePath)
            else Ok(RestoreOrder(f, t, archivo.s))
  }

  /** The response built from a group's outcome. */
  function RestoredOf(t: Table, o: GroupOutcome): Restored
  {
    Restored(t, o.report.upsert, o.report.recibidos, o.report.validos, o.modelErrors, o.qualityErrors)
  }

  /** Reading the file, then the ingestion steps on its records as one group of the table. */
  function RestoreFile(db: Db, files: map<string, Blob>, c: Codecs, o: RestoreOrder, dc: DateCodec): (Db, Result<Restored, Error>)
  {
    match Decode(c, files, o.formato, o.archivo)
    case Err(e) => (db, Err(e))
    case Ok(registros) =>
      var run := ProcessGroup(db, Group(JStr(TableName(o.tabla)), registros), dc);
      (run.0, if run.1.Ok? then Ok(RestoredOf(o.tabla, run.1.value)) else Err(run.1.error))
  }

  /** The whole request: the new store and the response or the error. */
  function RestoreSpec(db: Db, files: map<string, Blob>, payload: map<string, Json>, c: Codecs, dc: DateCodec)
    : (Db, Result<Restored, Error>)
  {
    match RestoreRequest(payload)
    case Err(e) => (db, Err(e))
    case Ok(o) => RestoreFile(db, files, c, o, dc)
  }

  /** `restaurar(payload)` on the files of `disk`. */
  method Restaurar(db: Database, disk: Disk, payload: map<string, Json>, c: Codecs, dc: DateCodec)
    returns (r: Result<Restored, Error>)
    modifies db
    ensures (db.State(), r) == RestoreSpec(old(db.State()), disk.files, payload, c, dc)
  {
    var pedido := RestoreRequest(payload);
    if pedido.Err? {
      return Err(pedido.error);
    }
    var o := pedido.value;
    var registros := Decode(c, disk.files, o.formato, o.archivo);
    if registros.Err? {
      return Err(registros.error);
    }
    var salida := ProcessGroupOn(db, Group(JStr(TableName(o.tabla)), registros.value), dc);
    if salida.Err? {
      return Err(salida.error);
    }
    r := Ok(RestoredOf(o.tabla, salida.value));
  }

  /** A restore never leaves the store invalid, and one that fails commits nothing. */
  lemma RestorePreservesValid(db: Db, files: map<string, Blob>, payload: map<string, Json>, c: Codecs, dc: DateCodec)
    requires Valid(db)
    ensures Valid(RestoreSpec(db, files, payload, c, dc).0)
    ensures RestoreSpec(db, files, payload, c, dc).1.Err? ==> RestoreSpec(db, files, payload, c, dc).0 == db
  {
    match RestoreRequest(payload)
    case Err(_) =>
    case Ok(o) =>
      match Decode(c, files, o.formato, o.archivo)
      case Err(_) =>
      case Ok(registros) =>
        var g := Group(JStr(TableName(o.tabla)), registros);
        ProcessGroupPreservesValid(db, g, dc);
        ProcessGroupFailsClean(db, g, dc);
  }

  // ---------------------------------------------------------------------------
  // Backup, then restore

  /** The stored rows in scan order. */
  function StoredRows(m: map<int, Row>, scan: seq<int>): (rows: seq<Row>)
    requires forall i :: 0 <= i < |scan| ==> scan[i] in m
    ensures |rows| == |scan| && forall i :: 0 <= i < |scan| ==> rows[i] == m[scan[i]]
  {
    seq(|scan|, i requires 0 <= i < |scan| => m[scan[i]])
  }

  /** The records a reader returns for a file holding `recs`. */
  function Objects(recs: seq<map<string, Json>>): (js: seq<Json>)
    ensures |js| == |recs| && forall i :: 0 <= i < |recs| ==> js[i] == JObject(recs[i])
  {
    seq(|recs|, i requires 0 <= i < |recs| => JObject(recs[i]))
  }

  /** All outcomes successful: their values in order, and no error entry. */
  lemma {:induction false} AllOk(t: Table, os: seq<Result<Row, seq<Issue>>>)
    requires forall i :: 0 <= i < |os| ==> os[i].Ok?
    ensures |OkValues(os)| == |os| && forall i :: 0 <= i < |os| ==> OkValues(os)[i] == os[i].value
    ensures ErrorEntries(t, os) == []
  {
    if os != [] {
      var n := |os| - 1;
      var pre := os[..n];
      assert forall i :: 0 <= i < n ==> pre[i] == os[i];
      AllOk(t, pre);
      assert OkValues(os) == OkValues(pre) + [os[n].value];
    }
  }

  /** The dictionaries of a table's rows parse back to the rows, with no error. */
  lemma ParseSnapshot(t: Table, m: map<int, Row>, scan: seq<int>, dc: DateCodec)
    requires WellKeyed(t, m) && Canonical(dc) && Enumerates(scan, m)
    ensures ParseSpec(t, Objects(Snapshot(m, scan, dc)), dc) == Ok(Parsed(StoredRows(m, scan), []))
  {
    var datos := Objects(Snapshot(m, scan, dc));
    assert AllMappings(datos);
    var os := Outcomes(t, datos, dc);
    forall i | 0 <= i < |os| ensures os[i] == Ok(m[scan[i]]) {
      var k := scan[i];
      assert k in m;
      ValidateExport(t, m[k], dc);
    }
    AllOk(t, os);
    assert OkValues(os) == StoredRows(m, scan);
  }

  /** Rows already stored under their keys, each key once, upsert to the same table. */
  lemma {:induction false} OverwriteStored(m: map<int, Row>, rows: seq<Row>)
    requires forall i :: 0 <= i < |rows| ==> rows[i].id in m && m[rows[i].id] == rows[i]
    ensures Overwrite(m, rows) == m
  {
    if rows != [] {
      var n := |rows| - 1;
      assert forall i :: 0 <= i < n ==> rows[..n][i] == rows[i];
      OverwriteStored(m, rows[..n]);
    }
  }

  /** A table's own rows, in scan order, upsert to the store unchanged and count the table's rows. */
  lemma UpsertStored(db: Db, t: Table, scan: seq<int>)
    requires Valid(db) && Enumerates(scan, db.Rows(t))
    ensures UpsertSpec(db, t, StoredRows(db.Rows(t), scan)) == (db, Ok(|db.Rows(t)|))
  {
    var m := db.Rows(t);
    var rows := StoredRows(m, scan);
    EnumerationSize(scan, m);
    TableWellKeyed(db, t);
    forall i | 0 <= i < |rows| ensures rows[i].id == scan[i] && ColumnsFit(rows[i]) && ReferencesStored(db, rows[i]) {
      var k := scan[i];
      assert k in m;
      if t == EmpleadosContratados {
        assert k in db.empleados;
      }
    }
    assert !DuplicateInPage(rows);
    OverwriteStored(m, rows);
    assert db.WithRows(t, m) == db by {
      match t
      case Departamentos =>
      case Trabajos =>
      case EmpleadosContratados =>
    }
  }

  /** A table's own rows pass the quality rules against the store unchanged, with no error. */
  lemma QualityStored(db: Db, t: Table, scan: seq<int>)
    requires Valid(db) && Enumerates(scan, db.Rows(t))
    ensures var rows := StoredRows(db.Rows(t), scan);
      && Accepted(t, rows, db.departamentos.Keys, db.trabajos.Keys) == rows
      && AllOf(t, rows)
      && QualityErrors(t, rows, db.departamentos.Keys, db.trabajos.Keys) == []
  {
    var m := db.Rows(t);
    var rows := StoredRows(m, scan);
    TableWellKeyed(db, t);
    forall i | 0 <= i < |rows| ensures RowOf(t, rows[i]) && ReferencesExist(rows[i], db.departamentos.Keys, db.trabajos.Keys) {
      var k := scan[i];
      assert k in m;
      if t == EmpleadosContratados {
        assert ReferencesStored(db, db.empleados[k]);
      }
    }
    if t == EmpleadosContratados {
      AllReferencesExist(rows, db.departamentos.Keys, db.trabajos.Keys);
    }
  }

  /**
   * Restoring a file that holds a table of a valid store as the backup wrote it (any number of
   * rows: no batch bound) changes nothing and reports every row restored, received and valid,
   * with no error.
   */
  lemma RestoreSnapshot(db: Db, t: Table, scan: seq<int>, c: Codecs, f: Format, dc: DateCodec,
                        files: map<string, Blob>, path: string)
    requires Valid(db) && Canonical(dc) && Enumerates(scan, db.Rows(t)) && Available(c, f)
    requires path in files && files[path] == Written(f, Snapshot(db.Rows(t), scan, dc))
    ensures var n := |db.Rows(t)|;
      RestoreFile(db, files, c, RestoreOrder(f, t, path), dc) == (db, Ok(Restored(t, n, n, n, [], [])))
  {
    var datos := Objects(Snapshot(db.Rows(t), scan, dc));
    assert Decode(c, files, f, path) == Ok(datos);
    ProcessStored(db, t, scan, dc);
  }

  /** The records of a table's snapshot, ingested as one group, change nothing and all count. */
  lemma ProcessStored(db: Db, t: Table, scan: seq<int>, dc: DateCodec)
    requires Valid(db) && Canonical(dc) && Enumerates(scan, db.Rows(t))
    ensures var n := |db.Rows(t)|;
      ProcessGroup(db, Group(JStr(TableName(t)), Objects(Snapshot(db.Rows(t), scan, dc))), dc)
        == (db, Ok(GroupOutcome(GroupReport(t, n, n, n), [], [])))
  {
    var m := db.Rows(t);
    EnumerationSize(scan, m);
    TableWellKeyed(db, t);
    assert TableOf(JStr(TableName(t))) == Some(t);
    ParseSnapshot(t, m, scan, dc);
    QualityStored(db, t, scan);
    UpsertStored(db, t, scan);
  }

  /**
   * Backup, then restore: after a successful `generar_respaldos`, restoring any file it reports
   * (with the reported format, table and path) leaves the store as it is and reports the
   * table's rows all restored, with no error.
   */
  lemma GeneratedBackupRestores(db: Db, files: map<string, Blob>, payload: map<string, Json>, c: Codecs, ts: string,
                                scans: Table -> seq<int>, dc: DateCodec, k: nat)
    requires ScansCover(db, scans) && Valid(db) && Canonical(dc)
    requires GenerateSpec(db, files, payload, c, ts, scans, dc).1.Ok?
    requires k < |GenerateSpec(db, files, payload, c, ts, scans, dc).1.value.respaldos|
    ensures var e := GenerateSpec(db, files, payload, c, ts, scans, dc).1.value.respaldos[k];
      var request := map["formato" := JStr(Extension(e.formato)), "tabla" := JStr(TableName(e.tabla)), "archivo" := JStr(e.ruta)];
      RestoreSpec(db, GenerateSpec(db, files, payload, c, ts, scans, dc).0, request, c, dc)
        == (db, Ok(Restored(e.tabla, e.registros, e.registros, e.registros, [], [])))
  {
    var run := GenerateSpec(db, files, payload, c, ts, scans, dc);
    var e := run.1.value.respaldos[k];
    GeneratedEntry(db, files, payload, c, ts, scans, dc, k);
    var request := map["formato" := JStr(Extension(e.formato)), "tabla" := JStr(TableName(e.tabla)), "archivo" := JStr(e.ruta)];
    RequestAccepted(e.formato, e.tabla, e.ruta);
    RestoreSnapshot(db, e.tabla, scans(e.tabla), c, e.formato, dc, run.0, e.ruta);
  }

  /**
   * Entry `k` of a successful `generar_respaldos` names a non-empty path that holds its table's
   * snapshot, written in a format whose library loads, and counts the table's rows.
   */
  lemma GeneratedEntry(db: Db, files: map<string, Blob>, payload: map<string, Json>, c: Codecs, ts: string,
                       scans: Table -> seq<int>, dc: DateCodec, k: nat)
    requires ScansCover(db, scans) && Valid(db)
    requires GenerateSpec(db, files, payload, c, ts, scans, dc).1.Ok?
    requires k < |GenerateSpec(db, files, payload, c, ts, scans, dc).1.value.respaldos|
    ensures var run := GenerateSpec(db, files, payload, c, ts, scans, dc);
      var e := run.1.value.respaldos[k];
      && e.ruta != "" && Available(c, e.formato) && e.registros == |db.Rows(e.tabla)|
      && Enumerates(scans(e.tabla), db.Rows(e.tabla))
      && e.ruta in run.0 && run.0[e.ruta] == Written(e.formato, Snapshot(db.Rows(e.tabla), scans(e.tabla), dc))
  {
    GeneratedBackups(db, files, payload, c, ts, scans, dc);
    GenerateSucceedsIff(db, files, payload, c, ts, scans, dc);
    var o := BackupRequest(payload).value;
    var s := Setting(db, c, o.formato, o.directorio, ts, scans, dc);
    var run := GenerateSpec(db, files, payload, c, ts, scans, dc);
    var e := run.1.value.respaldos[k];
    assert ItemExports(s, o.tablas[k]);
    assert Enumerates(scans(e.tabla), db.Rows(e.tabla));
    RecordedPathNonEmpty(s, e.tabla);
  }

  /** A request naming a format, a table and a non-empty path by their names is accepted as is. */
  lemma RequestAccepted(f: Format, t: Table, path: string)
    requires path != ""
    ensures var request := map["formato" := JStr(Extension(f)), "tabla" := JStr(TableName(t)), "archivo" := JStr(path)];
      RestoreRequest(request) == Ok(RestoreOrder(f, t, path))
  {
    var request := map["formato" := JStr(Extension(f)), "tabla" := JStr(TableName(t)), "archivo" := JStr(path)];
    assert Get(request, "formato") == JStr(Extension(f));
    assert Get(request, "tabla") == JStr(TableName(t));
    assert Get(request, "archivo") == JStr(path);
    assert FormatOf(JStr(Extension(f))) == Some(f);
    assert TableOf(JStr(TableName(t))) == Some(t);
  }

  /** A backup path is never empty. */
  lemma RecordedPathNonEmpty(s: Setting, t: Table)
    ensures BackupPath(s.dir, t, s.ts, s.f) != ""
  {
    var name := BackupName(TableName(t), s.ts, s.f);
    assert name[0] == TableName(t)[0];
  }
}
