/**
 * `insertar_lote_departamentos`, `insertar_lote_trabajos` and `insertar_lote_empleados`:
 * each row of a batch becomes one line of PostgreSQL's COPY text format. A line holds
 * tab-separated fields and ends in a newline, and a null field is written as `\N`. The lines
 * are gathered into one buffer that a single COPY loads.
 */
module CopyLines {
  import opened Wrappers
  import opened Text
  import opened Seqs
  import opened CsvBatches

  /** COPY's text for a null field. */
  const Null: string := "\\N"

  /** `f"{v}"` for a cell: a missing value prints as "None". */
  function Show(c: Cell): string
  {
    if c.Some? then c.value else "None"
  }

  /** One COPY line: the fields separated by tabs, then a newline. */
  function Line(fields: seq<string>): string
  {
    Join(fields, '\t') + "\n"
  }

  /** The buffer holding one line per row, in order. */
  function Buffer(rows: seq<seq<string>>): string
  {
    if rows == [] then "" else Line(rows[0]) + Buffer(rows[1..])
  }

  lemma {:induction false} BufferSnoc(rows: seq<seq<string>>, fields: seq<string>)
    ensures Buffer(rows + [fields]) == Buffer(rows) + Line(fields)
  {
    if rows != [] {
      assert (rows + [fields])[1..] == rows[1..] + [fields];
      BufferSnoc(rows[1..], fields);
    }
  }

  /**
   * How COPY's text format splits a buffer into raw fields: newline-terminated lines, each split
   * at its tabs. The backslash escapes it then decodes in each field are not modelled.
   */
  function CopyRows(buffer: string): seq<seq<string>>
  {
    var lines := Split(buffer, '\n');
    seq(|lines| - 1, i requires 0 <= i < |lines| - 1 => Split(lines[i], '\t'))
  }

  /** A field COPY reads back as written: it holds no tab and no newline. */
  predicate Clean(field: string)
  {
    '\t' !in field && '\n' !in field
  }

  lemma {:induction false} JoinAvoids(parts: seq<string>, sep: char, c: char)
    requires c != sep
    requires forall k :: 0 <= k < |parts| ==> c !in parts[k]
    ensures c !in Join(parts, sep)
  {
    if |parts| > 1 {
      JoinAvoids(parts[1..], sep, c);
    }
  }

  /** The buffer is the lines joined with newlines, with a final empty piece after the last. */
  lemma {:induction false} BufferIsJoin(rows: seq<seq<string>>)
    ensures Buffer(rows) == Join(seq(|rows|, k requires 0 <= k < |rows| => Join(rows[k], '\t')) + [""], '\n')
  {
    var lines := seq(|rows|, k requires 0 <= k < |rows| => Join(rows[k], '\t'));
    if rows != [] {
      BufferIsJoin(rows[1..]);
      assert (lines + [""])[1..] == seq(|rows| - 1, k requires 0 <= k < |rows| - 1 => Join(rows[1..][k], '\t')) + [""];
    }
  }

  /**
   * Splitting the buffer back gives every row's raw fields, provided each row has a field and no
   * field holds a tab or a newline.
   */
  lemma BufferRoundTrip(rows: seq<seq<string>>)
    requires forall k :: 0 <= k < |rows| ==> |rows[k]| >= 1
    requires forall k, j :: 0 <= k < |rows| && 0 <= j < |rows[k]| ==> Clean(rows[k][j])
    ensures CopyRows(Buffer(rows)) == rows
  {
    var lines := seq(|rows|, k requires 0 <= k < |rows| => Join(rows[k], '\t'));
    var pieces := lines + [""];
    BufferIsJoin(rows);
    forall k | 0 <= k < |pieces| ensures '\n' !in pieces[k] {
      if k < |rows| {
        JoinAvoids(rows[k], '\t', '\n');
      }
    }
    SplitJoin(pieces, '\n');
    assert Split(Buffer(rows), '\n') == pieces;
    var out := CopyRows(Buffer(rows));
    assert |out| == |rows|;
    forall k | 0 <= k < |rows| ensures out[k] == rows[k] {
      assert out[k] == Split(pieces[k], '\t');
      assert pieces[k] == Join(rows[k], '\t');
      SplitJoin(rows[k], '\t');
    }
  }

  // ---------------------------------------------------------------------------
  // Departments and jobs

  /** `f"{fila[0]}\t{fila[1]}\n"`: the first two cells; a shorter row raises IndexError. */
  function CatalogFields(fila: CsvRow): Option<seq<string>>
  {
    if |fila| < 2 then None else Some([Show(fila[0]), Show(fila[1])])
  }

  /** The fields of every row of a batch whose rows all have two cells. */
  function CatalogRows(lote: seq<CsvRow>): (rows: seq<seq<string>>)
    requires forall k :: 0 <= k < |lote| ==> |lote[k]| >= 2
    ensures |rows| == |lote|
    ensures forall k :: 0 <= k < |lote| ==> Some(rows[k]) == CatalogFields(lote[k])
  {
    seq(|lote|, k requires 0 <= k < |lote| => [Show(lote[k][0]), Show(lote[k][1])])
  }

  /**
   * The buffer built by `insertar_lote_departamentos` and `insertar_lote_trabajos` (the two
   * differ only in the table COPY loads). A row with fewer than two cells raises IndexError,
   * the whole batch is rolled back, and `None` is returned.
   */
  method InsertarLoteCatalogo(lote: seq<CsvRow>) returns (r: Option<string>)
    ensures r.None? <==> exists k :: 0 <= k < |lote| && |lote[k]| < 2
    ensures r.Some? ==> r.value == Buffer(CatalogRows(lote))
  {
    var output := "";
    var i := 0;
    while i < |lote|
      invariant 0 <= i <= |lote|
      invariant forall k :: 0 <= k < i ==> |lote[k]| >= 2
      invariant output == Buffer(CatalogRows(lote[..i]))
    {
      if |lote[i]| < 2 {
        return None;
      }
      var fields := [Show(lote[i][0]), Show(lote[i][1])];
      CatalogRowsSnoc(lote, i);
      BufferSnoc(CatalogRows(lote[..i]), fields);
      output := output + Line(fields);
      i := i + 1;
    }
    assert lote[..i] == lote;
    r := Some(output);
  }

  /** One more row of the batch adds its two fields at the end. */
  lemma CatalogRowsSnoc(lote: seq<CsvRow>, i: nat)
    requires i < |lote| && forall k :: 0 <= k <= i ==> |lote[k]| >= 2
    ensures CatalogRows(lote[..i + 1]) == CatalogRows(lote[..i]) + [[Show(lote[i][0]), Show(lote[i][1])]]
  {
    var a := CatalogRows(lote[..i + 1]);
    var b := CatalogRows(lote[..i]) + [[Show(lote[i][0]), Show(lote[i][1])]];
    forall k | 0 <= k < |a| ensures a[k] == b[k] {
      assert lote[..i + 1][k] == lote[k];
      if k < i {
        assert lote[..i][k] == lote[k];
      }
    }
  }

  /** A field COPY's text format loads as written: clean, and with no backslash to start an escape. */
  predicate Literal(field: string)
  {
    Clean(field) && '\\' !in field
  }

  /**
   * Each department or job row arrives as its id and name: when the first two cells are present
   * and hold no tab, newline or backslash, COPY reads back exactly those two values per row.
   */
  lemma CatalogRoundTrip(lote: seq<CsvRow>)
    requires forall k :: 0 <= k < |lote| ==> |lote[k]| >= 2
    requires forall k :: 0 <= k < |lote| ==>
      lote[k][0].Some? && lote[k][1].Some? && Literal(lote[k][0].value) && Literal(lote[k][1].value)
    ensures CopyRows(Buffer(CatalogRows(lote)))
         == seq(|lote|, k requires 0 <= k < |lote| => [lote[k][0].value, lote[k][1].value])
  {
    var rows := CatalogRows(lote);
    forall k, j | 0 <= k < |rows| && 0 <= j < |rows[k]| ensures Clean(rows[k][j]) {
      assert Some(rows[k]) == CatalogFields(lote[k]);
    }
    BufferRoundTrip(rows);
  }

  /**
   * A blank line of departments.csv or jobs.csv passes the filter and breaks the load of its
   * batch: some batch holds a row with no cells, and COPY of that batch raises IndexError.
   */
  lemma BlankLineFailsCatalog(ruta: string, filas: seq<seq<string>>, tamanoLote: int, i: nat)
    requires !IsHiredFile(ruta) && tamanoLote >= 1 && i < |filas| && filas[i] == []
    ensures var b := BatchSpec(ruta, filas, tamanoLote).value;
      exists k :: 0 <= k < |b.lotes| && exists j :: 0 <= j < |b.lotes[k]| && CatalogFields(b.lotes[k][j]).None?
  {
    BlankLineBatched(ruta, filas, tamanoLote, i);
    var b := BatchSpec(ruta, filas, tamanoLote).value;
    var k, j :| 0 <= k < |b.lotes| && 0 <= j < |b.lotes[k]| && b.lotes[k][j] == [];
    assert CatalogFields(b.lotes[k][j]).None?;
  }

  // ---------------------------------------------------------------------------
  // Employees

  /** What `datetime.strptime(s, '%Y-%m-%d %H:%M:%S')` returns. */
  datatype DateTime = DateTime(year: nat, month: nat, day: nat, hour: nat, minute: nat, second: nat)

  /** Zero-padded decimal digits, at least `width` of them. */
  function Pad(n: nat, width: nat): (s: string)
    ensures |s| >= width && |s| >= 1 && AllDigits(s) && Clean(s)
  {
    var d := NatDigits(n);
    var s := if |d| >= width then d else seq(width - |d|, _ => '0') + d;
    DigitsClean(s);
    s
  }

  /** Digits hold no tab and no newline. */
  lemma DigitsClean(s: string)
    requires AllDigits(s)
    ensures Clean(s)
  {
    forall i | 0 <= i < |s| ensures s[i] != '\t' && s[i] != '\n' {
      assert IsDigit(s[i]);
    }
  }

  /** `strftime('%Y-%m-%d %H:%M:%S')`. */
  function Strftime(d: DateTime): (s: string)
    ensures |s| >= 19 && IsDigit(s[0]) && Clean(s)
  {
    var year := Pad(d.year, 4);
    var date := year + "-" + Pad(d.month, 2) + "-" + Pad(d.day, 2);
    var time := Pad(d.hour, 2) + ":" + Pad(d.minute, 2) + ":" + Pad(d.second, 2);
    assert date[0] == year[0];
    date + " " + time
  }

  /** `if fila[2]:` a present, non-empty text. */
  predicate Filled(c: Cell)
  {
    c.Some? && c.value != ""
  }

  /** The text handed to `strptime`: 'T' becomes a space and anything from the first '.' is dropped. */
  function DateText(s: string): string
  {
    FirstPart(ReplaceChar(s, 'T', ' '), '.')
  }

  /**
   * The date column: the parsed date rewritten, or `\N` when the cell is empty or does not
   * parse (the ValueError is caught and the row is kept).
   */
  function DateField(c: Cell, strptime: string -> Option<DateTime>): string
  {
    if Filled(c) then
      match strptime(DateText(c.value))
      case Some(d) => Strftime(d)
      case None => Null
    else Null
  }

  /** An integer column: `\N` for a missing value, else `str(int(v))`; `None` when `int` raises. */
  function IntField(c: Cell): Option<string>
  {
    if c.None? then Some(Null)
    else
      match PyInt(c.value)
      case Some(v) => Some(DecimalString(v))
      case None => None
  }

  /**
   * The five COPY fields of an employee row, or `None` when the row is skipped: no cells,
   * `fila[0] is None`, fewer than five cells (IndexError) or an id that `int` rejects (ValueError).
   */
  function EmployeeFields(fila: CsvRow, strptime: string -> Option<DateTime>): Option<seq<string>>
  {
    if |fila| < 5 || fila[0].None? then None
    else
      var id := IntField(fila[0]);
      var dep := IntField(fila[3]);
      var trab := IntField(fila[4]);
      if id.None? || dep.None? || trab.None? then None
      else Some([id.value, if fila[1].Some? then fila[1].value else Null, DateField(fila[2], strptime), dep.value, trab.value])
  }

  /** What each row of a batch turns into. */
  function EmployeeOutcomes(lote: seq<CsvRow>, strptime: string -> Option<DateTime>): (os: seq<Option<seq<string>>>)
    ensures |os| == |lote|
    ensures forall k :: 0 <= k < |lote| ==> os[k] == EmployeeFields(lote[k], strptime)
  {
    seq(|lote|, k requires 0 <= k < |lote| => EmployeeFields(lote[k], strptime))
  }

  /**
   * `insertar_lote_empleados`: the buffer of the rows not skipped, how many there are
   * (`len(lote_procesado)`) and whether COPY is run at all (only when that count is positive).
   */
  method InsertarLoteEmpleados(lote: seq<CsvRow>, strptime: string -> Option<DateTime>)
    returns (buffer: string, procesados: nat, copia: bool)
    ensures buffer == Buffer(Somes(EmployeeOutcomes(lote, strptime)))
    ensures procesados == |Somes(EmployeeOutcomes(lote, strptime))|
    ensures copia <==> procesados > 0
  {
    ghost var os := EmployeeOutcomes(lote, strptime);
    buffer := "";
    var loteProcesado: seq<CsvRow> := [];
    var i := 0;
    while i < |lote|
      invariant 0 <= i <= |lote|
      invariant buffer == Buffer(Somes(os[..i]))
      invariant |loteProcesado| == |Somes(os[..i])|
    {
      var campos := EmployeeFields(lote[i], strptime);
      assert os[i] == campos;
      SomesSnoc(os, i);
      if campos.Some? {
        BufferSnoc(Somes(os[..i]), campos.value);
        buffer := buffer + Line(campos.value);
        loteProcesado := loteProcesado + [lote[i]];
      }
      i := i + 1;
    }
    assert os[..i] == os;
    procesados := |loteProcesado|;
    copia := |loteProcesado| > 0;
  }

  lemma DecimalNotNull(v: int)
    ensures DecimalString(v) != Null && Clean(DecimalString(v))
  {
    var s := DecimalString(v);
    assert s[0] == '-' || IsDigit(s[0]);
    assert s[0] != Null[0];
    if v < 0 {
      assert s[1..] == NatDigits(-v);
    }
    assert forall i :: 0 <= i < |s| ==> s[i] == '-' || IsDigit(s[i]);
  }

  /**
   * An employee row is written exactly when it has five cells, a present id, and an integer id
   * and integer foreign keys where present.
   */
  lemma EmployeeRowWritten(fila: CsvRow, strptime: string -> Option<DateTime>)
    ensures EmployeeFields(fila, strptime).Some? <==>
      && |fila| >= 5 && fila[0].Some? && PyInt(fila[0].value).Some?
      && (fila[3].Some? ==> PyInt(fila[3].value).Some?)
      && (fila[4].Some? ==> PyInt(fila[4].value).Some?)
  {
    EmployeeFieldsWritten(fila, strptime);
    if |fila| >= 5 && fila[0].Some? {
      IntFieldMeaning(fila[0]);
      IntFieldMeaning(fila[3]);
      IntFieldMeaning(fila[4]);
    }
  }

  /** A row whose id has more digits than `int` reads is skipped (ValueError), not written. */
  lemma LongIdSkipped(fila: CsvRow, strptime: string -> Option<DateTime>)
    requires |fila| >= 5 && fila[0].Some? && AllDigits(fila[0].value) && |fila[0].value| > MaxStrDigits
    ensures EmployeeFields(fila, strptime) == None
  {
    PyIntRefusesLong(fila[0].value);
    EmployeeRowWritten(fila, strptime);
  }

  /**
   * The five fields of a written row read back as the row: the id and foreign keys parse as the
   * integers `int` gave, a null key or name is `\N`, and the date is `\N` exactly when the cell
   * was empty or did not parse.
   */
  lemma EmployeeFieldsMeaning(fila: CsvRow, strptime: string -> Option<DateTime>)
    requires EmployeeFields(fila, strptime).Some?
    ensures |fila| >= 5 && fila[0].Some?
    ensures var fs := EmployeeFields(fila, strptime).value;
      && |fs| == 5
      && ParseDecimal(fs[0]) == PyInt(fila[0].value)
      && (fila[1].Some? ==> fs[1] == fila[1].value)
      && (fila[1].None? ==> fs[1] == Null)
      && (fs[2] == Null <==> !(Filled(fila[2]) && strptime(DateText(fila[2].value)).Some?))
      && (fs[2] != Null ==> fs[2] == Strftime(strptime(DateText(fila[2].value)).value))
      && (fs[3] == Null <==> fila[3].None?)
      && (fs[4] == Null <==> fila[4].None?)
      && (fila[3].Some? ==> ParseDecimal(fs[3]) == PyInt(fila[3].value))
      && (fila[4].Some? ==> ParseDecimal(fs[4]) == PyInt(fila[4].value))
  {
    EmployeeFieldsWritten(fila, strptime);
    EmployeeIdName(fila, strptime);
    EmployeeDate(fila, strptime);
    EmployeeKeys(fila, strptime);
  }

  lemma EmployeeIdName(fila: CsvRow, strptime: string -> Option<DateTime>)
    requires EmployeeFields(fila, strptime).Some?
    ensures |fila| >= 5 && fila[0].Some?
    ensures var fs := EmployeeFields(fila, strptime).value;
      && |fs| == 5
      && ParseDecimal(fs[0]) == PyInt(fila[0].value)
      && (fila[1].Some? ==> fs[1] == fila[1].value)
      && (fila[1].None? ==> fs[1] == Null)
  {
    EmployeeFieldsWritten(fila, strptime);
    EmployeeFieldsAre(fila, strptime);
    IntFieldMeaning(fila[0]);
  }

  lemma EmployeeDate(fila: CsvRow, strptime: string -> Option<DateTime>)
    requires EmployeeFields(fila, strptime).Some?
    ensures |fila| >= 5
    ensures var fs := EmployeeFields(fila, strptime).value;
      && |fs| == 5
      && (fs[2] == Null <==> !(Filled(fila[2]) && strptime(DateText(fila[2].value)).Some?))
      && (fs[2] != Null ==> fs[2] == Strftime(strptime(DateText(fila[2].value)).value))
  {
    EmployeeFieldsWritten(fila, strptime);
    EmployeeFieldsAre(fila, strptime);
    DateFieldMeaning(fila[2], strptime);
  }

  lemma EmployeeKeys(fila: CsvRow, strptime: string -> Option<DateTime>)
    requires EmployeeFields(fila, strptime).Some?
    ensures |fila| >= 5
    ensures var fs := EmployeeFields(fila, strptime).value;
      && |fs| == 5
      && (fs[3] == Null <==> fila[3].None?)
      && (fs[4] == Null <==> fila[4].None?)
      && (fila[3].Some? ==> ParseDecimal(fs[3]) == PyInt(fila[3].value))
      && (fila[4].Some? ==> ParseDecimal(fs[4]) == PyInt(fila[4].value))
  {
    EmployeeFieldsWritten(fila, strptime);
    EmployeeFieldsAre(fila, strptime);
    IntFieldMeaning(fila[3]);
    IntFieldMeaning(fila[4]);
  }

  /** Which rows are written: five cells, a present id, and integers where `int` is applied. */
  lemma EmployeeFieldsWritten(fila: CsvRow, strptime: string -> Option<DateTime>)
    ensures EmployeeFields(fila, strptime).Some? <==>
      |fila| >= 5 && fila[0].Some? && IntField(fila[0]).Some? && IntField(fila[3]).Some? && IntField(fila[4]).Some?
  {
  }

  /** The five fields of a written row, column by column. */
  lemma EmployeeFieldsAre(fila: CsvRow, strptime: string -> Option<DateTime>)
    requires EmployeeFields(fila, strptime).Some?
    ensures EmployeeFields(fila, strptime).value
      == [IntField(fila[0]).value, if fila[1].Some? then fila[1].value else Null, DateField(fila[2], strptime),
          IntField(fila[3]).value, IntField(fila[4]).value]
  {
  }

  /** An integer column is written unless `int` rejects the value; it is `\N` exactly when the cell is null, else it parses back. */
  lemma IntFieldMeaning(c: Cell)
    ensures IntField(c).Some? <==> (c.Some? ==> PyInt(c.value).Some?)
    ensures IntField(c).Some? ==>
      && Clean(IntField(c).value)
      && (IntField(c).value == Null <==> c.None?)
      && (c.Some? ==> ParseDecimal(IntField(c).value) == PyInt(c.value))
  {
    if c.Some? && PyInt(c.value).Some? {
      DecimalRoundTrip(PyInt(c.value).value);
      DecimalNotNull(PyInt(c.value).value);
    }
  }

  /** The date column is `\N` exactly when the cell is empty or does not parse, else the parsed date rewritten. */
  lemma DateFieldMeaning(c: Cell, strptime: string -> Option<DateTime>)
    ensures DateField(c, strptime) == Null <==> !(Filled(c) && strptime(DateText(c.value)).Some?)
    ensures DateField(c, strptime) != Null ==> DateField(c, strptime) == Strftime(strptime(DateText(c.value)).value)
  {
    if Filled(c) && strptime(DateText(c.value)).Some? {
      var d := strptime(DateText(c.value)).value;
      assert Strftime(d)[0] != Null[0];
    }
  }

  /**
   * COPY reads back five fields per written row, in order, provided no name holds a tab or a
   * newline: the buffer carries exactly the rows that were not skipped.
   */
  lemma EmployeeRoundTrip(lote: seq<CsvRow>, strptime: string -> Option<DateTime>)
    requires forall k :: 0 <= k < |lote| && |lote[k]| >= 2 && lote[k][1].Some? ==> Clean(lote[k][1].value)
    ensures var rows := Somes(EmployeeOutcomes(lote, strptime));
      && CopyRows(Buffer(rows)) == rows
      && (forall k :: 0 <= k < |rows| ==> |rows[k]| == 5)
  {
    var os := EmployeeOutcomes(lote, strptime);
    var rows := Somes(os);
    var idx := SomesIff(os);
    forall k | 0 <= k < |rows| ensures |rows[k]| == 5 && AllClean(rows[k]) {
      var fila := lote[idx[k]];
      assert EmployeeFields(fila, strptime) == Some(rows[k]);
      EmployeeFieldsClean(fila, strptime);
    }
    BufferRoundTrip(rows);
  }

  lemma EmployeeFieldsClean(fila: CsvRow, strptime: string -> Option<DateTime>)
    requires |fila| >= 2 && fila[1].Some? ==> Clean(fila[1].value)
    requires EmployeeFields(fila, strptime).Some?
    ensures var fs := EmployeeFields(fila, strptime).value;
      |fs| == 5 && AllClean(fs)
  {
    EmployeeFieldsWritten(fila, strptime);
    EmployeeFieldsAre(fila, strptime);
    IntFieldMeaning(fila[0]);
    IntFieldMeaning(fila[3]);
    IntFieldMeaning(fila[4]);
    NullClean();
    assert Clean(DateField(fila[2], strptime));
    CleanFive(IntField(fila[0]).value, if fila[1].Some? then fila[1].value else Null, DateField(fila[2], strptime),
              IntField(fila[3]).value, IntField(fila[4]).value);
  }

  /** Every field of a row is clean. */
  predicate AllClean(fs: seq<string>)
  {
    forall j :: 0 <= j < |fs| ==> Clean(fs[j])
  }

  lemma CleanFive(a: string, b: string, c: string, d: string, e: string)
    requires Clean(a) && Clean(b) && Clean(c) && Clean(d) && Clean(e)
    ensures AllClean([a, b, c, d, e])
  {
    var fs := [a, b, c, d, e];
    forall j | 0 <= j < 5 ensures Clean(fs[j]) {
      if j == 0 { assert fs[j] == a; }
      else if j == 1 { assert fs[j] == b; }
      else if j == 2 { assert fs[j] == c; }
      else if j == 3 { assert fs[j] == d; }
      else { assert fs[j] == e; }
    }
  }

  lemma NullClean()
    ensures Clean(Null)
  {
    assert Null == ['\\', 'N'];
  }

  /**
   * For a batch of hired_employees.csv the id is always present, so a row is skipped exactly
   * when the line had fewer than five fields, or its id or a non-blank foreign key is not an integer.
   */
  lemma HiredRowSkipped(raw: seq<string>, strptime: string -> Option<DateTime>)
    requires Accept(true, raw).Some?
    ensures EmployeeFields(Accept(true, raw).value, strptime).None? <==>
      || |raw| < 5
      || PyInt(Strip(raw[0])).None?
      || (!AllSpace(raw[3]) && PyInt(Strip(raw[3])).None?)
      || (!AllSpace(raw[4]) && PyInt(Strip(raw[4])).None?)
  {
    HiredFilter(raw);
  }
}
