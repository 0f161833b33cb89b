/**
 * `_listar_respaldos_por_tabla`: the backups of a table are the directory entries matching
 * `^{tabla}_(\d{8})_\d{6}\.(avro|parquet)$`, optionally only those dated today; and the file
 * names `generar_respaldos` gives its backups, `{tabla}_{ts}.{ext}`.
 */
module Locator {
  import opened Wrappers
  import opened Text
  import opened Domain
  import opened Seqs

  /** What `os.path.exists` and `os.listdir` see at the directory path. */
  datatype Listing = Absent | PlainFile | Entries(names: seq<string>)

  /** One entry of `archivos`. */
  datatype BackupFile = BackupFile(archivo: string, ruta: string, fecha: string, formato: string)

  /** The locator's answer. */
  datatype BackupInfo = BackupInfo(existen: bool, total: nat, archivos: seq<BackupFile>, soloHoy: bool)

  const Extensions: set<string> := {"avro", "parquet"}

  /** A timestamp as `strftime('%Y%m%d_%H%M%S')` writes it: 8 digits, `_`, 6 digits. */
  predicate WellFormedTs(ts: string)
  {
    |ts| == 15 && AllDigits(ts[..8]) && ts[8] == '_' && AllDigits(ts[9..])
  }

  /** What the pattern accepts after the dot: an extension, and `$` also matches before one final newline. */
  predicate ExtensionTail(s: string)
  {
    s in Extensions || (|s| >= 1 && s[|s| - 1] == '\n' && s[..|s| - 1] in Extensions)
  }

  /** The name `generar_respaldos` gives a table's backup. */
  function BackupName(tabla: string, ts: string, f: Format): string
  {
    tabla + "_" + ts + "." + Extension(f)
  }

  /** `patron.match(nombre)` with the table name inserted into the pattern, giving the captured date. */
  function MatchBackupName(tabla: string, name: string): (fecha: Option<string>)
    ensures fecha.Some? ==> |fecha.value| == 8 && AllDigits(fecha.value)
  {
    var p := |tabla| + 1;
    if |name| < p + 16 || name[..p] != tabla + "_" then None
    else
      var ts := name[p..p + 15];
      if WellFormedTs(ts) && name[p + 15] == '.' && ExtensionTail(name[p + 16..])
      then Some(ts[..8])
      else None
  }

  /** The text after the last separator is what follows a separator when that contains none. */
  lemma LastPartAfter(a: string, sep: char, b: string)
    requires sep !in b
    ensures LastPart(a + [sep] + b, sep) == b
  {
    var s := a + [sep] + b;
    var r := LastPart(s, sep);
    assert s[|s| - |b| - 1] == sep;
    assert forall j :: |s| - |b| <= j < |s| ==> s[j] == b[j - (|s| - |b|)];
    assert |r| == |b|;
    assert r == s[|s| - |r|..];
  }

  /**
   * Every name the exporter writes is matched by the locator of the same table, with the
   * timestamp's date as `fecha`; with a newline appended it is still matched.
   */
  lemma BackupNameMatches(tabla: string, ts: string, f: Format)
    requires WellFormedTs(ts)
    ensures MatchBackupName(tabla, BackupName(tabla, ts, f)) == Some(ts[..8])
    ensures MatchBackupName(tabla, BackupName(tabla, ts, f) + "\n") == Some(ts[..8])
  {
    var ext := Extension(f);
    var p := |tabla| + 1;
    var name := BackupName(tabla, ts, f);
    assert name == tabla + "_" + ts + ['.'] + ext;
    assert name[..p] == tabla + "_";
    assert name[p..p + 15] == ts;
    assert name[p + 16..] == ext;
    var nl := name + "\n";
    assert nl[..p] == tabla + "_";
    assert nl[p..p + 15] == ts;
    SuffixOfAppend(name, "\n", p + 16);
    assert (ext + "\n")[..|ext + "\n"| - 1] == ext;
  }

  /** Appending to a string appends to each of its suffixes. */
  lemma SuffixOfAppend(x: string, y: string, i: nat)
    requires i <= |x|
    ensures (x + y)[i..] == x[i..] + y
  {
  }

  /** No dot in a well-formed timestamp. */
  lemma NoDotInTs(ts: string)
    requires WellFormedTs(ts)
    ensures '.' !in ts
  {
    assert forall j :: 0 <= j < 8 ==> ts[..8][j] == ts[j];
    assert forall j :: 9 <= j < 15 ==> ts[9..][j - 9] == ts[j];
  }

  /**
   * The `formato` of an exporter name is its extension, and with a newline appended the extension
   * followed by the newline.
   */
  lemma BackupNameFormat(tabla: string, ts: string, f: Format)
    requires '.' !in tabla && WellFormedTs(ts)
    ensures LastPart(BackupName(tabla, ts, f), '.') == Extension(f)
    ensures LastPart(BackupName(tabla, ts, f) + "\n", '.') == Extension(f) + "\n"
  {
    NoDotInTs(ts);
    var ext := Extension(f);
    assert BackupName(tabla, ts, f) == (tabla + "_" + ts) + ['.'] + ext;
    assert BackupName(tabla, ts, f) + "\n" == (tabla + "_" + ts) + ['.'] + (ext + "\n");
    LastPartAfter(tabla + "_" + ts, '.', ext);
    LastPartAfter(tabla + "_" + ts, '.', ext + "\n");
  }

  /**
   * Conversely every matched name is an exporter name, `{tabla}_{ts}.{ext}` with a well-formed
   * timestamp, possibly followed by a newline; `fecha` is the timestamp's date and `formato` the
   * text after the dot.
   */
  lemma MatchedNameShape(tabla: string, name: string) returns (ts: string, tail: string)
    requires '.' !in tabla
    requires MatchBackupName(tabla, name).Some?
    ensures WellFormedTs(ts) && ExtensionTail(tail)
    ensures name == tabla + "_" + ts + "." + tail
    ensures MatchBackupName(tabla, name) == Some(ts[..8]) && LastPart(name, '.') == tail
  {
    var p := |tabla| + 1;
    ts := name[p..p + 15];
    tail := name[p + 16..];
    assert name == name[..p] + ts + [name[p + 15]] + tail;
    assert '.' !in tail by {
      if tail !in Extensions {
        assert tail == tail[..|tail| - 1] + "\n";
      }
    }
    NoDotInTs(ts);
    assert name == (tabla + "_" + ts) + ['.'] + tail;
    LastPartAfter(tabla + "_" + ts, '.', tail);
  }

  /** A name matched for one table is never matched for another. */
  lemma TablesSeparated(t: Table, u: Table, name: string)
    requires t != u && MatchBackupName(TableName(t), name).Some?
    ensures MatchBackupName(TableName(u), name).None?
  {
    assert name[0] == TableName(t)[0];
  }

  /** The `archivos` entry for a directory entry: listed when it matches and, if only today's backups are wanted, is dated today. */
  function EntryOf(tabla: string, dir: string, name: string, soloHoy: bool, hoy: string): Option<BackupFile>
  {
    var m := MatchBackupName(tabla, name);
    if m.Some? && (soloHoy ==> m.value == hoy)
    then Some(BackupFile(name, PathJoin(dir, name), m.value, LastPart(name, '.')))
    else None
  }

  function EntriesOf(tabla: string, dir: string, names: seq<string>, soloHoy: bool, hoy: string): (es: seq<Option<BackupFile>>)
    ensures |es| == |names|
    ensures forall i :: 0 <= i < |names| ==> es[i] == EntryOf(tabla, dir, names[i], soloHoy, hoy)
  {
    seq(|names|, i requires 0 <= i < |names| => EntryOf(tabla, dir, names[i], soloHoy, hoy))
  }

  /** The entries listed, in directory order. */
  function Listed(tabla: string, dir: string, names: seq<string>, soloHoy: bool, hoy: string): seq<BackupFile>
  {
    Somes(EntriesOf(tabla, dir, names, soloHoy, hoy))
  }

  /** The locator's answer for `tabla` in the directory `directorio` whose contents `listing` describes. */
  function LocateSpec(tabla: string, directorio: Json, soloHoy: bool, hoy: string, listing: Listing): Result<BackupInfo, Error>
  {
    if TableNamed(tabla).None? then Err(UnsupportedTable)
    else if !directorio.JStr? || directorio.s == "" then Err(InvalidDirectory)
    else
      match listing
      case Absent => Ok(BackupInfo(false, 0, [], soloHoy))
      case PlainFile => Err(NotADirectory)
      case Entries(names) =>
        var fs := Listed(tabla, directorio.s, names, soloHoy, hoy);
        Ok(BackupInfo(|fs| > 0, |fs|, fs, soloHoy))
  }

  /** `_listar_respaldos_por_tabla(tabla, directorio, solo_hoy)`, with today's date `hoy`. */
  method ListBackups(tabla: string, directorio: Json, soloHoy: bool, hoy: string, listing: Listing)
    returns (r: Result<BackupInfo, Error>)
    ensures r == LocateSpec(tabla, directorio, soloHoy, hoy, listing)
    ensures r.Ok? ==> (r.value.existen <==> r.value.total > 0) && r.value.total == |r.value.archivos|
  {
    if TableNamed(tabla).None? {
      return Err(UnsupportedTable);
    }
    if !directorio.JStr? || directorio.s == "" {
      return Err(InvalidDirectory);
    }
    if listing.Absent? {
      return Ok(BackupInfo(false, 0, [], soloHoy));
    }
    if listing.PlainFile? {
      return Err(NotADirectory);
    }
    var names := listing.names;
    ghost var es := EntriesOf(tabla, directorio.s, names, soloHoy, hoy);
    var archivos: seq<BackupFile> := [];
    var i := 0;
    while i < |names|
      invariant 0 <= i <= |names|
      invariant archivos == Somes(es[..i])
    {
      var nombre := names[i];
      assert es[..i + 1][..i] == es[..i];
      var m := MatchBackupName(tabla, nombre);
      if m.Some? && !(soloHoy && m.value != hoy) {
        archivos := archivos + [BackupFile(nombre, PathJoin(directorio.s, nombre), m.value, LastPart(nombre, '.'))];
      }
      i := i + 1;
    }
    assert es[..i] == es;
    r := Ok(BackupInfo(|archivos| > 0, |archivos|, archivos, soloHoy));
  }

  /**
   * The listed entries are exactly the matching directory entries (dated today when only today's
   * are wanted), in directory order (`idx` picks them out), each with its path under the directory,
   * the captured date and the text after the last dot.
   */
  lemma ListedIff(tabla: string, dir: string, names: seq<string>, soloHoy: bool, hoy: string)
    returns (idx: seq<nat>)
    ensures var fs := Listed(tabla, dir, names, soloHoy, hoy);
      && |idx| == |fs| && Increasing(idx, |names|)
      && (forall k :: 0 <= k < |fs| ==>
            && fs[k].archivo == names[idx[k]]
            && fs[k].ruta == PathJoin(dir, names[idx[k]])
            && MatchBackupName(tabla, names[idx[k]]) == Some(fs[k].fecha)
            && fs[k].formato == LastPart(names[idx[k]], '.'))
      && (forall i :: 0 <= i < |names| ==>
            (MatchBackupName(tabla, names[i]).Some? && (soloHoy ==> MatchBackupName(tabla, names[i]).value == hoy)
             <==> i in idx))
  {
    var es := EntriesOf(tabla, dir, names, soloHoy, hoy);
    idx := SomesIff(es);
  }

  /** The entry for an exporter name is listed, dated by its timestamp and with its extension as format. */
  lemma EntryOfBackupName(t: Table, ts: string, f: Format, dir: string, soloHoy: bool, hoy: string)
    requires WellFormedTs(ts)
    requires soloHoy ==> ts[..8] == hoy
    ensures var name := BackupName(TableName(t), ts, f);
      EntryOf(TableName(t), dir, name, soloHoy, hoy) == Some(BackupFile(name, PathJoin(dir, name), ts[..8], Extension(f)))
  {
    BackupNameMatches(TableName(t), ts, f);
    NoDotInTableName(t);
    BackupNameFormat(TableName(t), ts, f);
  }

  /** Table names contain no dot. */
  lemma NoDotInTableName(t: Table)
    ensures '.' !in TableName(t)
  {
    var name := TableName(t);
    forall i | 0 <= i < |name| ensures name[i] != '.' {
      match t
      case Departamentos =>
      case Trabajos =>
      case EmpleadosContratados =>
    }
  }

  /**
   * A backup the exporter wrote is found: once its name is in the directory (and, when only
   * today's backups are wanted, its timestamp is from today) the locator reports backups, among
   * them that file with the timestamp's date and the format's extension.
   */
  lemma ExportedBackupFound(t: Table, ts: string, f: Format, dir: string, names: seq<string>, soloHoy: bool, hoy: string)
    requires WellFormedTs(ts) && dir != ""
    requires BackupName(TableName(t), ts, f) in names
    requires soloHoy ==> ts[..8] == hoy
    ensures var r := LocateSpec(TableName(t), JStr(dir), soloHoy, hoy, Entries(names));
      && r.Ok? && r.value.existen && r.value.total >= 1
      && BackupFile(BackupName(TableName(t), ts, f), PathJoin(dir, BackupName(TableName(t), ts, f)), ts[..8], Extension(f))
         in r.value.archivos
  {
    var name := BackupName(TableName(t), ts, f);
    var file := BackupFile(name, PathJoin(dir, name), ts[..8], Extension(f));
    var i :| 0 <= i < |names| && names[i] == name;
    var es := EntriesOf(TableName(t), dir, names, soloHoy, hoy);
    EntryOfBackupName(t, ts, f, dir, soloHoy, hoy);
    SomeListed(es, i);
    LocateEntries(TableName(t), dir, names, soloHoy, hoy);
  }

  /** For a known table and a non-empty directory string, the locator reports the listed entries. */
  lemma LocateEntries(tabla: string, dir: string, names: seq<string>, soloHoy: bool, hoy: string)
    requires TableNamed(tabla).Some? && dir != ""
    ensures var fs := Listed(tabla, dir, names, soloHoy, hoy);
      LocateSpec(tabla, JStr(dir), soloHoy, hoy, Entries(names)) == Ok(BackupInfo(|fs| > 0, |fs|, fs, soloHoy))
  {
  }
}
