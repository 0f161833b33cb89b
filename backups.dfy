/**
 * `generar_respaldos`: each requested table is read with `SELECT *` (`obtener_datos_tabla`,
 * timestamps turned into ISO-8601 text) and written to `{tabla}_{ts}.{ext}` under the backup
 * directory, with one timestamp `ts` for the whole call. The files written before a failure stay
 * on disk.
 */
module Backups {
  import opened Wrappers
  import opened Text
  import opened Domain
  import opened Records
  import opened Store
  import opened Codec
  import opened Locator

  /** The files under the backup directories, by path. */
  class Disk {
    var files: map<string, Blob>

    constructor (initial: map<string, Blob>)
      ensures files == initial
    {
      files := initial;
    }

    /** Creates or replaces the file at `path`. */
    method Write(path: string, b: Blob)
      modifies this
      ensures files == old(files)[path := b]
    {
      files := files[path := b];
    }
  }

  /** One entry of `respaldos` in the response. */
  datatype BackupEntry = BackupEntry(tabla: Table, formato: Format, ruta: string, registros: nat)

  /** The response: the files written, the directory and the format. */
  datatype BackupsReport = BackupsReport(respaldos: seq<BackupEntry>, directorio: string, formato: Format)

  /** A checked request: the format, the raw items of `tablas` and the directory. */
  datatype BackupOrder = BackupOrder(formato: Format, tablas: seq<Json>, directorio: string)

  /** The registry's keys, the table list a request without `tablas` gets. */
  const AllTableNames: seq<Json> := [JStr("departamentos"), JStr("trabajos"), JStr("empleados_contratados")]

  /** The checks made before the connection is opened. */
  function BackupRequest(payload: map<string, Json>): (r: Result<BackupOrder, Error>)
    ensures r.Ok? ==> r.value.tablas != [] && r.value.directorio != ""
  {
    var formato := Get(payload, "formato");
    if !Hashable(formato) then Err(Unhashable)
    else
      match FormatOf(formato)
      case None => Err(InvalidFormat)
      case Some(f) =>
        var tablas := if Get(payload, "tablas") == JNull then JList(AllTableNames) else Get(payload, "tablas");
        if !tablas.JList? || tablas.items == [] then Err(InvalidTableList)
        else
          var directorio := if Truthy(Get(payload, "directorio")) then Get(payload, "directorio") else JStr("respaldos");
          if !directorio.JStr? || directorio.s == "" then Err(InvalidDirectory)
          else Ok(BackupOrder(f, tablas.items, directorio.s))
  }

  /**
   * A request is accepted exactly when `formato` is "avro" or "parquet", `tablas` is absent, null
   * or a non-empty list, and `directorio` is absent, falsy or a non-empty string; then the table
   * list defaults to the whole registry and the directory to "respaldos".
   */
  lemma BackupRequestAccepts(payload: map<string, Json>)
    ensures var r := BackupRequest(payload);
      && (r.Ok? <==>
            && (Get(payload, "formato") == JStr("avro") || Get(payload, "formato") == JStr("parquet"))
            && (Get(payload, "tablas") == JNull
                || (Get(payload, "tablas").JList? && Get(payload, "tablas").items != []))
            && (!Truthy(Get(payload, "directorio")) || Get(payload, "directorio").JStr?))
      && (r.Ok? ==>
            && Get(payload, "formato") == JStr(Extension(r.value.formato))
            && (Get(payload, "tablas") == JNull ==> r.value.tablas == AllTableNames)
            && (!Truthy(Get(payload, "directorio")) ==> r.value.directorio == "respaldos"))
  {
  }

  // ---------------------------------------------------------------------------
  // Reading a table

  /** `scan` lists each key of `m` once: an order in which `SELECT *` can return the table. */
  ghost predicate Enumerates(scan: seq<int>, m: map<int, Row>)
  {
    && (forall i, j :: 0 <= i < j < |scan| ==> scan[i] != scan[j])
    && (forall i :: 0 <= i < |scan| ==> scan[i] in m)
    && (forall k :: k in m ==> k in scan)
  }

  /** The dictionaries `obtener_datos_tabla` returns for the rows of `m`, read in `scan` order. */
  function Snapshot(m: map<int, Row>, scan: seq<int>, dc: DateCodec): (recs: seq<map<string, Json>>)
    requires forall i :: 0 <= i < |scan| ==> scan[i] in m
    ensures |recs| == |scan|
    ensures forall i :: 0 <= i < |scan| ==> recs[i] == ExportRecord(m[scan[i]], dc)
  {
    seq(|scan|, i requires 0 <= i < |scan| => ExportRecord(m[scan[i]], dc))
  }

  /** `obtener_datos_tabla(conexion, tabla)`, with `scan` the order the rows come back in. */
  method ObtenerDatosTabla(db: Database, t: Table, scan: seq<int>, dc: DateCodec) returns (registros: seq<map<string, Json>>)
    requires forall i :: 0 <= i < |scan| ==> scan[i] in db.State().Rows(t)
    ensures registros == Snapshot(db.State().Rows(t), scan, dc)
  {
    var filas := db.State().Rows(t);
    registros := [];
    var i := 0;
    while i < |scan|
      invariant 0 <= i <= |scan|
      invariant |registros| == i
      invariant forall j :: 0 <= j < i ==> registros[j] == ExportRecord(filas[scan[j]], dc)
    {
      registros := registros + [ExportRecord(filas[scan[i]], dc)];
      i := i + 1;
    }
  }

  /** A sequence without repetitions has as many distinct elements as positions. */
  lemma {:induction false} DistinctCount(scan: seq<int>)
    requires forall i, j :: 0 <= i < j < |scan| ==> scan[i] != scan[j]
    ensures |set k | k in scan| == |scan|
  {
    if scan != [] {
      var n := |scan| - 1;
      var pre := scan[..n];
      DistinctCount(pre);
      assert (set k | k in scan) == (set k | k in pre) + {scan[n]};
      assert scan[n] !in (set k | k in pre);
    }
  }

  /** A full scan reads as many rows as the table holds. */
  lemma EnumerationSize(scan: seq<int>, m: map<int, Row>)
    requires Enumerates(scan, m)
    ensures |scan| == |m|
  {
    DistinctCount(scan);
    forall k | k in scan ensures k in m.Keys {
      var i :| 0 <= i < |scan| && scan[i] == k;
    }
    forall k | k in m.Keys ensures k in (set k | k in scan) {
      assert k in m;
    }
    assert (set k | k in scan) == m.Keys;
  }

  // ---------------------------------------------------------------------------
  // Writing the files

  /** What one call works with: the store, the codecs, the checked format and directory, the timestamp and the scan orders. */
  datatype Setting = Setting(db: Db, c: Codecs, f: Format, dir: string, ts: string, scans: Table -> seq<int>, dc: DateCodec)

  /** Every table is scanned in full. */
  ghost predicate ScansCover(db: Db, scans: Table -> seq<int>)
  {
    forall t :: Enumerates(scans(t), db.Rows(t))
  }

  /** Where table `t`'s backup goes: `os.path.join(directorio, f"{tabla}_{ts}.{ext}")`. */
  function BackupPath(dir: string, t: Table, ts: string, f: Format): string
  {
    PathJoin(dir, BackupName(TableName(t), ts, f))
  }

  /** Table `t` as the store holds it, in the call's format. */
  function ExportTable(s: Setting, t: Table): (Option<Blob>, Result<nat, Error>)
    requires ScansCover(s.db, s.scans)
  {
    assert Enumerates(s.scans(t), s.db.Rows(t));
    Export(s.c, s.f, t, Snapshot(s.db.Rows(t), s.scans(t), s.dc))
  }

  /** One item of `tablas`: its table exported to its file, or the error that stops the call. */
  function ExportItem(s: Setting, files: map<string, Blob>, item: Json): (map<string, Blob>, Result<BackupEntry, Error>)
    requires ScansCover(s.db, s.scans)
  {
    if !Hashable(item) then (files, Err(Unhashable))
    else
      match TableOf(item)
      case None => (files, Err(UnsupportedTable))
      case Some(t) =>
        var path := BackupPath(s.dir, t, s.ts, s.f);
        var (blob, n) := ExportTable(s, t);
        var files' := if blob.Some? then files[path := blob.value] else files;
        match n
        case Err(e) => (files', Err(e))
        case Ok(k) => (files', Ok(BackupEntry(t, s.f, path, k)))
  }

  /** One more item after a run: nothing more after a failure. */
  function ExportStep(s: Setting, run: (map<string, Blob>, Result<seq<BackupEntry>, Error>), item: Json)
    : (map<string, Blob>, Result<seq<BackupEntry>, Error>)
    requires ScansCover(s.db, s.scans)
  {
    if run.1.Err? then run
    else
      var (files', r) := ExportItem(s, run.0, item);
      match r
      case Err(e) => (files', Err(e))
      case Ok(b) => (files', Ok(run.1.value + [b]))
  }

  /** The items in order, stopping at the first failure with the files written so far. */
  function ExportItems(s: Setting, files: map<string, Blob>, items: seq<Json>): (map<string, Blob>, Result<seq<BackupEntry>, Error>)
    requires ScansCover(s.db, s.scans)
  {
    if items == [] then (files, Ok([]))
    else ExportStep(s, ExportItems(s, files, items[..|items| - 1]), items[|items| - 1])
  }

  /** The whole call: the files afterwards and the response or the error. */
  function GenerateSpec(db: Db, files: map<string, Blob>, payload: map<string, Json>, c: Codecs, ts: string,
                        scans: Table -> seq<int>, dc: DateCodec): (map<string, Blob>, Result<BackupsReport, Error>)
    requires ScansCover(db, scans)
  {
    match BackupRequest(payload)
    case Err(e) => (files, Err(e))
    case Ok(o) =>
      var (files', r) := ExportItems(Setting(db, c, o.formato, o.directorio, ts, scans, dc), files, o.tablas);
      (files', match r
               case Err(e) => Err(e)
               case Ok(es) => Ok(BackupsReport(es, o.directorio, o.formato)))
  }

  // ---------------------------------------------------------------------------
  // Implementation

  lemma ExportItemsSnoc(s: Setting, files: map<string, Blob>, items: seq<Json>, i: nat)
    requires ScansCover(s.db, s.scans) && i < |items|
    ensures ExportItems(s, files, items[..i + 1]) == ExportStep(s, ExportItems(s, files, items[..i]), items[i])
  {
    assert items[..i + 1][..i] == items[..i];
  }

  /** A failed run stays failed, with the same files, whatever items follow. */
  lemma {:induction false} ExportItemsErrSticks(s: Setting, files: map<string, Blob>, items: seq<Json>, k: nat)
    requires ScansCover(s.db, s.scans)
    requires k <= |items| && ExportItems(s, files, items[..k]).1.Err?
    ensures ExportItems(s, files, items) == ExportItems(s, files, items[..k])
  {
    if k == |items| {
      assert items[..k] == items;
    } else {
      var n := |items| - 1;
      assert items[..n][..k] == items[..k];
      ExportItemsErrSticks(s, files, items[..n], k);
    }
  }

  /** A step after a successful run, for an item naming table `t`. */
  lemma ExportStepOf(s: Setting, files: map<string, Blob>, es: seq<BackupEntry>, item: Json, t: Table)
    requires ScansCover(s.db, s.scans) && Hashable(item) && TableOf(item) == Some(t)
    ensures var (blob, n) := ExportTable(s, t);
      var path := BackupPath(s.dir, t, s.ts, s.f);
      var files' := if blob.Some? then files[path := blob.value] else files;
      ExportStep(s, (files, Ok(es)), item)
        == (files', if n.Ok? then Ok(es + [BackupEntry(t, s.f, path, n.value)]) else Err(n.error))
  {
  }

  /** One pass of the loop over `tablas`: the item's table read, exported and written to its path. */
  method RespaldarItem(disk: Disk, db: Database, c: Codecs, f: Format, dir: string, ts: string,
                       scans: Table -> seq<int>, dc: DateCodec, item: Json) returns (r: Result<BackupEntry, Error>)
    requires ScansCover(db.State(), scans)
    modifies disk
    ensures (disk.files, r) == ExportItem(Setting(db.State(), c, f, dir, ts, scans, dc), old(disk.files), item)
  {
    ghost var s := Setting(db.State(), c, f, dir, ts, scans, dc);
    if !Hashable(item) {
      return Err(Unhashable);
    }
    var table := TableOf(item);
    if table.None? {
      return Err(UnsupportedTable);
    }
    var t := table.value;
    assert Enumerates(scans(t), db.State().Rows(t));
    var registros := ObtenerDatosTabla(db, t, scans(t), dc);
    var ruta := PathJoin(dir, BackupName(TableName(t), ts, f));
    var (blob, cantidad) := Export(c, f, t, registros);
    assert (blob, cantidad) == ExportTable(s, t);
    if blob.Some? {
      disk.Write(ruta, blob.value);
    }
    if cantidad.Err? {
      return Err(cantidad.error);
    }
    r := Ok(BackupEntry(t, f, ruta, cantidad.value));
  }

  /** `generar_respaldos(payload)`, with `ts` the call's timestamp and `scans` the row order of each `SELECT *`. */
  method GenerarRespaldos(disk: Disk, db: Database, payload: map<string, Json>, c: Codecs, ts: string,
                          scans: Table -> seq<int>, dc: DateCodec) returns (r: Result<BackupsReport, Error>)
    requires ScansCover(db.State(), scans)
    modifies disk
    ensures (disk.files, r) == GenerateSpec(db.State(), old(disk.files), payload, c, ts, scans, dc)
  {
    var pedido := BackupRequest(payload);
    if pedido.Err? {
      return Err(pedido.error);
    }
    var o := pedido.value;
    ghost var s := Setting(db.State(), c, o.formato, o.directorio, ts, scans, dc);
    ghost var files0 := disk.files;
    var resultado: seq<BackupEntry> := [];
    var i := 0;
    while i < |o.tablas|
      invariant 0 <= i <= |o.tablas|
      invariant ExportItems(s, files0, o.tablas[..i]) == (disk.files, Ok(resultado))
    {
      ExportItemsSnoc(s, files0, o.tablas, i);
      var entrada := RespaldarItem(disk, db, c, o.formato, o.directorio, ts, scans, dc, o.tablas[i]);
      if entrada.Err? {
        ExportItemsErrSticks(s, files0, o.tablas, i + 1);
        return Err(entrada.error);
      }
      resultado := resultado + [entrada.value];
      i := i + 1;
    }
    assert o.tablas[..i] == o.tablas;
    r := Ok(BackupsReport(resultado, o.directorio, o.formato));
  }

  // ---------------------------------------------------------------------------
  // Properties of a call

  /** Every stored employee has both foreign keys, which the Avro schema requires. */
  predicate KeysPresent(m: map<int, Row>)
  {
    forall k :: k in m && m[k].Employee? ==> m[k].idDepartamento.Some? && m[k].idTrabajo.Some?
  }

  lemma TableWellKeyed(db: Db, t: Table)
    requires Valid(db)
    ensures WellKeyed(t, db.Rows(t))
  {
    match t
    case Departamentos =>
    case Trabajos =>
    case EmpleadosContratados =>
  }

  /**
   * Exporting a table of a valid store fails only when its library is missing or, in Avro, when
   * an employee lacks a foreign key; otherwise the file holds the table's dictionaries as read,
   * one per stored row.
   */
  lemma StoredTableExport(s: Setting, t: Table)
    requires ScansCover(s.db, s.scans) && Valid(s.db)
    ensures var (blob, n) := ExportTable(s, t);
      && (n.Ok? <==> Available(s.c, s.f) && (s.f == Avro ==> KeysPresent(s.db.Rows(t))))
      && (n.Ok? ==> n.value == |s.db.Rows(t)| && blob == Some(Written(s.f, Snapshot(s.db.Rows(t), s.scans(t), s.dc))))
  {
    var m := s.db.Rows(t);
    var scan := s.scans(t);
    assert Enumerates(scan, m);
    EnumerationSize(scan, m);
    var recs := Snapshot(m, scan, s.dc);
    SnapshotFits(s, t);
    SnapshotProjected(recs, t);
    assert ExportTable(s, t) == Export(s.c, s.f, t, recs);
  }

  /** The table's dictionaries all fit the format exactly when it is Parquet or no employee lacks a key. */
  lemma SnapshotFits(s: Setting, t: Table)
    requires ScansCover(s.db, s.scans) && Valid(s.db)
    ensures var m := s.db.Rows(t);
      var scan := s.scans(t);
      && (forall i :: 0 <= i < |scan| ==> scan[i] in m)
      && var recs := Snapshot(m, scan, s.dc);
      && (forall i :: 0 <= i < |recs| ==> recs[i].Keys == ColumnNames(t))
      && (AllFit(s.f, t, recs) <==> s.f == Parquet || KeysPresent(m))
  {
    var m := s.db.Rows(t);
    var scan := s.scans(t);
    assert Enumerates(scan, m);
    TableWellKeyed(s.db, t);
    var recs := Snapshot(m, scan, s.dc);
    forall i | 0 <= i < |recs|
      ensures recs[i].Keys == ColumnNames(t) && Fits(Parquet, t, recs[i])
      ensures Fits(Avro, t, recs[i]) <==> !m[scan[i]].Employee? || (m[scan[i]].idDepartamento.Some? && m[scan[i]].idTrabajo.Some?)
    {
      var k := scan[i];
      assert k in m;
      assert RowOf(t, m[k]) && ColumnsFit(m[k]);
      ExportedRowFits(t, m[k], s.dc);
    }
    if s.f == Avro {
      if KeysPresent(m) {
        forall i | 0 <= i < |recs| ensures Fits(Avro, t, recs[i]) {
          var k := scan[i];
          assert k in m;
          assert m[k].Employee? ==> m[k].idDepartamento.Some? && m[k].idTrabajo.Some?;
        }
      } else {
        var k :| k in m && m[k].Employee? && !(m[k].idDepartamento.Some? && m[k].idTrabajo.Some?);
        var i :| 0 <= i < |scan| && scan[i] == k;
        assert !Fits(Avro, t, recs[i]);
      }
    }
  }

  /** Projecting records that have exactly the table's columns keeps them as they are. */
  lemma SnapshotProjected(recs: seq<map<string, Json>>, t: Table)
    requires forall i :: 0 <= i < |recs| ==> recs[i].Keys == ColumnNames(t)
    ensures seq(|recs|, k requires 0 <= k < |recs| => Project(recs[k], t)) == recs
  {
    var projected := seq(|recs|, k requires 0 <= k < |recs| => Project(recs[k], t));
    forall k | 0 <= k < |recs| ensures projected[k] == recs[k] {
      ProjectIdentity(recs[k], t);
    }
  }

  /** The file a successful export of table `t` leaves: the table's dictionaries as read. */
  function TableBlob(s: Setting, t: Table): Blob
    requires ScansCover(s.db, s.scans)
  {
    assert Enumerates(s.scans(t), s.db.Rows(t));
    Written(s.f, Snapshot(s.db.Rows(t), s.scans(t), s.dc))
  }

  /** Item `item` can be exported: it names a table, the library loads and, in Avro, the table has no null key. */
  predicate ItemExports(s: Setting, item: Json)
  {
    && TableOf(item).Some?
    && Available(s.c, s.f)
    && (s.f == Avro ==> KeysPresent(s.db.Rows(TableOf(item).value)))
  }

  /**
   * The entries `es` answer the items one by one: each is for its item's table, in the call's
   * format, counts the table's rows, and its path, built with the call's timestamp, holds the
   * table's file.
   */
  ghost predicate Recorded(s: Setting, files: map<string, Blob>, items: seq<Json>, es: seq<BackupEntry>)
    requires ScansCover(s.db, s.scans)
  {
    && |es| == |items|
    && forall k :: 0 <= k < |es| ==>
         && TableOf(items[k]) == Some(es[k].tabla)
         && es[k].formato == s.f
         && es[k].ruta == BackupPath(s.dir, es[k].tabla, s.ts, s.f)
         && es[k].registros == |s.db.Rows(es[k].tabla)|
         && es[k].ruta in files
         && files[es[k].ruta] == TableBlob(s, es[k].tabla)
  }

  /** Two tables never share a backup path: their names differ in the first letter. */
  lemma BackupPathsDistinct(dir: string, t: Table, u: Table, ts: string, f: Format)
    requires t != u
    ensures BackupPath(dir, t, ts, f) != BackupPath(dir, u, ts, f)
  {
    var a := BackupName(TableName(t), ts, f);
    var b := BackupName(TableName(u), ts, f);
    assert a[0] == TableName(t)[0] && b[0] == TableName(u)[0];
    if BackupPath(dir, t, ts, f) == BackupPath(dir, u, ts, f) {
      PathJoinInjective(dir, a, b);
    }
  }

  /** One step after a successful run succeeds exactly when its item can be exported. */
  lemma ExportStepOkIff(s: Setting, files: map<string, Blob>, es: seq<BackupEntry>, item: Json)
    requires ScansCover(s.db, s.scans) && Valid(s.db)
    ensures ExportStep(s, (files, Ok(es)), item).1.Ok? <==> ItemExports(s, item)
  {
    if TableOf(item).Some? {
      ExportStepOf(s, files, es, item, TableOf(item).value);
      StoredTableExport(s, TableOf(item).value);
    }
  }

  /** A run over `items` succeeds exactly when every item can be exported. */
  lemma {:induction false} ExportItemsOkIff(s: Setting, files: map<string, Blob>, items: seq<Json>)
    requires ScansCover(s.db, s.scans) && Valid(s.db)
    ensures ExportItems(s, files, items).1.Ok? <==> forall k :: 0 <= k < |items| ==> ItemExports(s, items[k])
  {
    if items != [] {
      var n := |items| - 1;
      var pre := items[..n];
      ExportItemsOkIff(s, files, pre);
      ItemsExportSnoc(s, items);
      var run := ExportItems(s, files, pre);
      assert ExportItems(s, files, items) == ExportStep(s, run, items[n]);
      if run.1.Ok? {
        ExportStepOkIff(s, run.0, run.1.value, items[n]);
      }
    }
  }

  /** Every item of `items` can be exported when every earlier one and the last one can. */
  lemma ItemsExportSnoc(s: Setting, items: seq<Json>)
    requires items != []
    ensures var n := |items| - 1;
      (forall k :: 0 <= k < |items| ==> ItemExports(s, items[k]))
        <==> (forall k :: 0 <= k < n ==> ItemExports(s, items[..n][k])) && ItemExports(s, items[n])
  {
    var n := |items| - 1;
    assert forall k :: 0 <= k < n ==> items[..n][k] == items[k];
  }

  /** What a successful run over `items` answers and leaves on disk. */
  lemma {:induction false} ExportItemsRecorded(s: Setting, files: map<string, Blob>, items: seq<Json>)
    requires ScansCover(s.db, s.scans) && Valid(s.db)
    requires ExportItems(s, files, items).1.Ok?
    ensures Recorded(s, ExportItems(s, files, items).0, items, ExportItems(s, files, items).1.value)
  {
    if items != [] {
      var n := |items| - 1;
      var pre := items[..n];
      var run := ExportItems(s, files, pre);
      assert ExportItems(s, files, items) == ExportStep(s, run, items[n]);
      ExportStepOk(s, run, items[n]);
      ExportItemsRecorded(s, files, pre);
      RecordedSnoc(s, run.0, items, run.1.value, TableOf(items[n]).value);
    }
  }

  /** A step that succeeds follows a successful run, names a table and writes that table's file. */
  lemma ExportStepOk(s: Setting, run: (map<string, Blob>, Result<seq<BackupEntry>, Error>), item: Json)
    requires ScansCover(s.db, s.scans) && Valid(s.db)
    requires ExportStep(s, run, item).1.Ok?
    ensures run.1.Ok? && TableOf(item).Some?
    ensures var t := TableOf(item).value;
      var path := BackupPath(s.dir, t, s.ts, s.f);
      ExportStep(s, run, item) == (run.0[path := TableBlob(s, t)], Ok(run.1.value + [BackupEntry(t, s.f, path, |s.db.Rows(t)|)]))
  {
    var t := TableOf(item).value;
    ExportStepOf(s, run.0, run.1.value, item, t);
    StoredTableExport(s, t);
  }

  /** Recording one more table after recorded ones keeps the earlier entries' files. */
  lemma RecordedSnoc(s: Setting, files: map<string, Blob>, items: seq<Json>, es: seq<BackupEntry>, t: Table)
    requires ScansCover(s.db, s.scans) && items != [] && TableOf(items[|items| - 1]) == Some(t)
    requires Recorded(s, files, items[..|items| - 1], es)
    ensures var path := BackupPath(s.dir, t, s.ts, s.f);
      Recorded(s, files[path := TableBlob(s, t)], items, es + [BackupEntry(t, s.f, path, |s.db.Rows(t)|)])
  {
    var path := BackupPath(s.dir, t, s.ts, s.f);
    var files' := files[path := TableBlob(s, t)];
    var es' := es + [BackupEntry(t, s.f, path, |s.db.Rows(t)|)];
    var pre := items[..|items| - 1];
    forall k | 0 <= k < |es|
      ensures TableOf(items[k]) == Some(es'[k].tabla)
      ensures es'[k].ruta in files' && files'[es'[k].ruta] == TableBlob(s, es'[k].tabla)
    {
      assert es'[k] == es[k] && items[k] == pre[k];
      EntryFileKept(s, files, es[k], t);
    }
  }

  /** Writing table `t`'s backup keeps the file of an earlier entry of the same call. */
  lemma EntryFileKept(s: Setting, files: map<string, Blob>, e: BackupEntry, t: Table)
    requires ScansCover(s.db, s.scans)
    requires e.ruta == BackupPath(s.dir, e.tabla, s.ts, s.f) && e.ruta in files && files[e.ruta] == TableBlob(s, e.tabla)
    ensures var files' := files[BackupPath(s.dir, t, s.ts, s.f) := TableBlob(s, t)];
      e.ruta in files' && files'[e.ruta] == TableBlob(s, e.tabla)
  {
    if e.tabla != t {
      BackupPathsDistinct(s.dir, e.tabla, t, s.ts, s.f);
    }
  }

  /**
   * A successful `generar_respaldos` answers each item of `tablas` with one entry: its table,
   * the request's format, the table's row count and the path `{tabla}_{ts}.{ext}` under the
   * request's directory, all with the same timestamp; each path then holds its table's file.
   */
  lemma GeneratedBackups(db: Db, files: map<string, Blob>, payload: map<string, Json>, c: Codecs, ts: string,
                         scans: Table -> seq<int>, dc: DateCodec)
    requires ScansCover(db, scans) && Valid(db)
    requires GenerateSpec(db, files, payload, c, ts, scans, dc).1.Ok?
    ensures BackupRequest(payload).Ok?
    ensures var o := BackupRequest(payload).value;
      var (files', r) := GenerateSpec(db, files, payload, c, ts, scans, dc);
      && r.value.directorio == o.directorio && r.value.formato == o.formato
      && Recorded(Setting(db, c, o.formato, o.directorio, ts, scans, dc), files', o.tablas, r.value.respaldos)
  {
    var o := BackupRequest(payload).value;
    ExportItemsRecorded(Setting(db, c, o.formato, o.directorio, ts, scans, dc), files, o.tablas);
  }

  /**
   * `generar_respaldos` succeeds exactly when the request is well formed and every requested
   * item can be exported: it names a table, the format's library loads and, in Avro, no
   * employee of a requested table lacks a foreign key.
   */
  lemma GenerateSucceedsIff(db: Db, files: map<string, Blob>, payload: map<string, Json>, c: Codecs, ts: string,
                            scans: Table -> seq<int>, dc: DateCodec)
    requires ScansCover(db, scans) && Valid(db)
    ensures GenerateSpec(db, files, payload, c, ts, scans, dc).1.Ok? <==>
      && BackupRequest(payload).Ok?
      && var o := BackupRequest(payload).value;
         forall k :: 0 <= k < |o.tablas| ==> ItemExports(Setting(db, c, o.formato, o.directorio, ts, scans, dc), o.tablas[k])
  {
    if BackupRequest(payload).Ok? {
      var o := BackupRequest(payload).value;
      ExportItemsOkIff(Setting(db, c, o.formato, o.directorio, ts, scans, dc), files, o.tablas);
    }
  }

  /** The paths one call may write. */
  function CallPaths(dir: string, ts: string, f: Format): set<string>
  {
    {BackupPath(dir, Departamentos, ts, f), BackupPath(dir, Trabajos, ts, f), BackupPath(dir, EmpleadosContratados, ts, f)}
  }

  /** A run writes nothing but the backup paths of its tables. */
  lemma {:induction false} ExportItemsFrame(s: Setting, files: map<string, Blob>, items: seq<Json>)
    requires ScansCover(s.db, s.scans)
    ensures var files' := ExportItems(s, files, items).0;
      forall p :: p !in CallPaths(s.dir, s.ts, s.f) ==> (p in files' <==> p in files) && (p in files ==> files'[p] == files[p])
  {
    if items != [] {
      var pre := items[..|items| - 1];
      ExportItemsFrame(s, files, pre);
      ExportStepFrame(s, ExportItems(s, files, pre), items[|items| - 1]);
    }
  }

  /** One more item writes at most its own table's backup path. */
  lemma ExportStepFrame(s: Setting, run: (map<string, Blob>, Result<seq<BackupEntry>, Error>), item: Json)
    requires ScansCover(s.db, s.scans)
    ensures var files' := ExportStep(s, run, item).0;
      forall p :: p !in CallPaths(s.dir, s.ts, s.f) ==> (p in files' <==> p in run.0) && (p in run.0 ==> files'[p] == run.0[p])
  {
    if run.1.Ok? {
      assert ExportStep(s, run, item).0 == ExportItem(s, run.0, item).0;
      ExportItemFrame(s, run.0, item);
    }
  }

  /** One item writes at most its own table's backup path. */
  lemma ExportItemFrame(s: Setting, files: map<string, Blob>, item: Json)
    requires ScansCover(s.db, s.scans)
    ensures var files' := ExportItem(s, files, item).0;
      forall p :: p !in CallPaths(s.dir, s.ts, s.f) ==> (p in files' <==> p in files) && (p in files ==> files'[p] == files[p])
  {
    if Hashable(item) && TableOf(item).Some? {
      var t := TableOf(item).value;
      ExportItemFiles(s, files, item, t);
      PathInCall(s.dir, t, s.ts, s.f);
      UpdateFrame(files, BackupPath(s.dir, t, s.ts, s.f), ExportTable(s, t).0, CallPaths(s.dir, s.ts, s.f));
    }
  }

  /** The files after an item naming table `t`: its path updated when the export gives a blob. */
  lemma ExportItemFiles(s: Setting, files: map<string, Blob>, item: Json, t: Table)
    requires ScansCover(s.db, s.scans) && Hashable(item) && TableOf(item) == Some(t)
    ensures var path := BackupPath(s.dir, t, s.ts, s.f);
      var blob := ExportTable(s, t).0;
      ExportItem(s, files, item).0 == if blob.Some? then files[path := blob.value] else files
  {
  }

  lemma PathInCall(dir: string, t: Table, ts: string, f: Format)
    ensures BackupPath(dir, t, ts, f) in CallPaths(dir, ts, f)
  {
  }

  /** Writing (or not) one path of `paths` leaves every other path as it was. */
  lemma UpdateFrame(files: map<string, Blob>, path: string, blob: Option<Blob>, paths: set<string>)
    requires path in paths
    ensures var files' := if blob.Some? then files[path := blob.value] else files;
      forall p :: p !in paths ==> (p in files' <==> p in files) && (p in files ==> files'[p] == files[p])
  {
  }

  /**
   * Whatever the outcome, `generar_respaldos` leaves every file other than this call's backup
   * paths as it was (a rejected request touches no file at all).
   */
  lemma GenerateFrame(db: Db, files: map<string, Blob>, payload: map<string, Json>, c: Codecs, ts: string,
                      scans: Table -> seq<int>, dc: DateCodec)
    requires ScansCover(db, scans)
    ensures var files' := GenerateSpec(db, files, payload, c, ts, scans, dc).0;
      && (BackupRequest(payload).Err? ==> files' == files)
      && (BackupRequest(payload).Ok? ==>
            var o := BackupRequest(payload).value;
            forall p :: p !in CallPaths(o.directorio, ts, o.formato) ==>
              (p in files' <==> p in files) && (p in files ==> files'[p] == files[p]))
  {
    if BackupRequest(payload).Ok? {
      var o := BackupRequest(payload).value;
      ExportItemsFrame(Setting(db, c, o.formato, o.directorio, ts, scans, dc), files, o.tablas);
    }
  }

  /** Backup names contain no path separator. */
  lemma NoSlashInName(t: Table, ts: string, f: Format)
    requires WellFormedTs(ts)
    ensures '/' !in BackupName(TableName(t), ts, f)
  {
    TsNoSlash(ts);
    assert '/' !in TableName(t) && '/' !in Extension(f);
  }

  /** A well-formed timestamp is digits and one underscore. */
  lemma TsNoSlash(ts: string)
    requires WellFormedTs(ts)
    ensures '/' !in ts
  {
    forall j | 0 <= j < |ts| ensures ts[j] != '/' {
      if j < 8 {
        assert ts[j] == ts[..8][j];
      } else if j > 8 {
        assert ts[j] == ts[9..][j - 9];
      }
    }
  }

  /** `names` is what `os.listdir(dir)` gives for `files`: every file directly in the directory is listed. */
  ghost predicate ListsFiles(files: map<string, Blob>, dir: string, names: seq<string>)
  {
    forall n :: PathJoin(dir, n) in files && n != "" && '/' !in n ==> n in names
  }

  /**
   * What `generar_respaldos` writes, `_listar_respaldos_por_tabla` finds: listing the call's
   * directory afterwards (all of today's backups, when the timestamp is today's, or all backups)
   * reports backups of each exported table, among them the entry's own path, dated by the
   * timestamp and with the format's extension.
   */
  lemma GeneratedBackupFound(db: Db, files: map<string, Blob>, payload: map<string, Json>, c: Codecs, ts: string,
                             scans: Table -> seq<int>, dc: DateCodec, k: nat,
                             names: seq<string>, soloHoy: bool, hoy: string)
    requires ScansCover(db, scans) && Valid(db) && WellFormedTs(ts)
    requires GenerateSpec(db, files, payload, c, ts, scans, dc).1.Ok?
    requires k < |GenerateSpec(db, files, payload, c, ts, scans, dc).1.value.respaldos|
    requires ListsFiles(GenerateSpec(db, files, payload, c, ts, scans, dc).0,
                        GenerateSpec(db, files, payload, c, ts, scans, dc).1.value.directorio, names)
    requires soloHoy ==> ts[..8] == hoy
    ensures var rep := GenerateSpec(db, files, payload, c, ts, scans, dc).1.value;
      var e := rep.respaldos[k];
      var r := LocateSpec(TableName(e.tabla), JStr(rep.directorio), soloHoy, hoy, Entries(names));
      && r.Ok? && r.value.existen
      && BackupFile(BackupName(TableName(e.tabla), ts, rep.formato), e.ruta, ts[..8], Extension(rep.formato)) in r.value.archivos
  {
    GeneratedBackups(db, files, payload, c, ts, scans, dc);
    var o := BackupRequest(payload).value;
    var run := GenerateSpec(db, files, payload, c, ts, scans, dc);
    RecordedFound(Setting(db, c, o.formato, o.directorio, ts, scans, dc), run.0, o.tablas, run.1.value.respaldos, k, names, soloHoy, hoy);
  }

  /** The locator finds a recorded entry's file in a listing of the directory. */
  lemma RecordedFound(s: Setting, files: map<string, Blob>, items: seq<Json>, es: seq<BackupEntry>, k: nat,
                      names: seq<string>, soloHoy: bool, hoy: string)
    requires ScansCover(s.db, s.scans) && WellFormedTs(s.ts) && s.dir != ""
    requires Recorded(s, files, items, es) && k < |es|
    requires ListsFiles(files, s.dir, names)
    requires soloHoy ==> s.ts[..8] == hoy
    ensures var e := es[k];
      var r := LocateSpec(TableName(e.tabla), JStr(s.dir), soloHoy, hoy, Entries(names));
      && r.Ok? && r.value.existen
      && BackupFile(BackupName(TableName(e.tabla), s.ts, s.f), e.ruta, s.ts[..8], Extension(s.f)) in r.value.archivos
  {
    var e := es[k];
    var name := BackupName(TableName(e.tabla), s.ts, s.f);
    assert e.ruta == PathJoin(s.dir, name) && e.ruta in files;
    NameListed(files, s.dir, names, e.tabla, s.ts, s.f);
    ExportedBackupFound(e.tabla, s.ts, s.f, s.dir, names, soloHoy, hoy);
  }

  /** A backup file directly in the directory is among the names listed. */
  lemma NameListed(files: map<string, Blob>, dir: string, names: seq<string>, t: Table, ts: string, f: Format)
    requires WellFormedTs(ts) && ListsFiles(files, dir, names)
    requires PathJoin(dir, BackupName(TableName(t), ts, f)) in files
    ensures BackupName(TableName(t), ts, f) in names
  {
    NoSlashInName(t, ts, f);
    assert BackupName(TableName(t), ts, f) != "";
  }
}
