/**
 * `limpiar_tabla`: a fail-closed delete. The table is emptied only when the locator reports at
 * least one backup of it (by default in "respaldos", dated today); otherwise no connection is
 * opened and nothing changes.
 */
module Clear {
  import opened Wrappers
  import opened Domain
  import opened Store
  import opened Locator

  /** The response of a clear: the rows deleted and the locator's report that allowed it. */
  datatype Cleared = Cleared(tabla: Table, borrados: nat, respaldos: BackupInfo)

  /** A checked clear request: the table, the raw directory value and the date filter. */
  datatype ClearOrder = ClearOrder(tabla: Table, directorio: Json, soloHoy: bool)

  /** `tabla`, `directorio` (`or 'respaldos'`) and `bool(solo_hoy)` (true when absent). */
  function ClearRequest(payload: map<string, Json>): Result<ClearOrder, Error>
  {
    var tabla := Get(payload, "tabla");
    var directorio := if Truthy(Get(payload, "directorio")) then Get(payload, "directorio") else JStr("respaldos");
    var soloHoy := if "solo_hoy" in payload then Truthy(payload["solo_hoy"]) else true;
    if !Hashable(tabla) then Err(Unhashable)
    else
      match TableOf(tabla)
      case None => Err(UnsupportedTable)
      case Some(t) => Ok(ClearOrder(t, directorio, soloHoy))
  }

  /** The whole request, with `hoy` today's date and `listing` what the directory holds. */
  function ClearSpec(db: Db, payload: map<string, Json>, hoy: string, listing: Listing): (Db, Result<Cleared, Error>)
  {
    match ClearRequest(payload)
    case Err(e) => (db, Err(e))
    case Ok(o) =>
      match LocateSpec(TableName(o.tabla), o.directorio, o.soloHoy, hoy, listing)
      case Err(e) => (db, Err(e))
      case Ok(info) =>
        if !info.existen then (db, Err(NoBackups(o.tabla)))
        else
          var run := DeleteSpec(db, o.tabla);
          (run.0, if run.1.Ok? then Ok(Cleared(o.tabla, run.1.value, info)) else Err(run.1.error))
  }

  /** `limpiar_tabla(payload)`. */
  method LimpiarTabla(db: Database, payload: map<string, Json>, hoy: string, listing: Listing) returns (r: Result<Cleared, Error>)
    modifies db
    ensures (db.State(), r) == ClearSpec(old(db.State()), payload, hoy, listing)
  {
    var pedido := ClearRequest(payload);
    if pedido.Err? {
      return Err(pedido.error);
    }
    var o := pedido.value;
    var info := ListBackups(TableName(o.tabla), o.directorio, o.soloHoy, hoy, listing);
    if info.Err? {
      return Err(info.error);
    }
    if !info.value.existen {
      return Err(NoBackups(o.tabla));
    }
    var borrados := db.DeleteAll(o.tabla);
    if borrados.Err? {
      return Err(borrados.error);
    }
    r := Ok(Cleared(o.tabla, borrados.value, info.value));
  }

  /**
   * Fail-closed: the store changes only when the request names a table, the locator reports
   * backups of it and the DELETE commits; then exactly that table is emptied, the response
   * counts its former rows and carries the locator's report.
   */
  lemma ClearGate(db: Db, payload: map<string, Json>, hoy: string, listing: Listing)
    ensures var (db', r) := ClearSpec(db, payload, hoy, listing);
      && (r.Err? ==> db' == db)
      && (r.Ok? ==>
            && ClearRequest(payload).Ok?
            && var o := ClearRequest(payload).value;
               var info := LocateSpec(TableName(o.tabla), o.directorio, o.soloHoy, hoy, listing);
               && info.Ok? && info.value.existen && info.value.total > 0
               && r.value == Cleared(o.tabla, |db.Rows(o.tabla)|, info.value)
               && db'.Rows(o.tabla) == map[]
               && (forall u :: u != o.tabla ==> db'.Rows(u) == db.Rows(u)))
  {
  }

  /** A clear keeps the store's invariant: it never leaves an employee pointing at a deleted row. */
  lemma ClearPreservesValid(db: Db, payload: map<string, Json>, hoy: string, listing: Listing)
    requires Valid(db)
    ensures Valid(ClearSpec(db, payload, hoy, listing).0)
  {
    if ClearRequest(payload).Ok? {
      DeletePreservesValid(db, ClearRequest(payload).value.tabla);
    }
  }

  /**
   * Leaving out `directorio` and `solo_hoy` is asking for today's backups in "respaldos";
   * a falsy `directorio` ("", null, 0) also means "respaldos".
   */
  lemma ClearDefaults(db: Db, payload: map<string, Json>, hoy: string, listing: Listing)
    requires "solo_hoy" !in payload && !Truthy(Get(payload, "directorio"))
    ensures ClearSpec(db, payload, hoy, listing)
         == ClearSpec(db, payload["directorio" := JStr("respaldos")]["solo_hoy" := JBool(true)], hoy, listing)
  {
    var full := payload["directorio" := JStr("respaldos")]["solo_hoy" := JBool(true)];
    assert Get(full, "tabla") == Get(payload, "tabla");
    assert ClearRequest(full) == ClearRequest(payload);
  }

  /**
   * A backup opens the gate: when the directory holds a name the exporter wrote for the table
   * (dated today, unless every date is accepted), the clear is the table's DELETE.
   */
  lemma ClearAfterBackup(db: Db, payload: map<string, Json>, hoy: string, names: seq<string>, ts: string, f: Format)
    requires ClearRequest(payload).Ok?
    requires var o := ClearRequest(payload).value;
      && o.directorio.JStr? && o.directorio.s != ""
      && WellFormedTs(ts) && BackupName(TableName(o.tabla), ts, f) in names
      && (o.soloHoy ==> ts[..8] == hoy)
    ensures var o := ClearRequest(payload).value;
      var (db', r) := ClearSpec(db, payload, hoy, Entries(names));
      && db' == DeleteSpec(db, o.tabla).0
      && (r.Ok? <==> DeleteSpec(db, o.tabla).1.Ok?)
  {
    var o := ClearRequest(payload).value;
    ExportedBackupFound(o.tabla, ts, f, o.directorio.s, names, o.soloHoy, hoy);
  }
}
