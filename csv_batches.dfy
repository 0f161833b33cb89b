/**
 * `procesar_csv_por_lotes`: the rows of a CSV file go through the file's filter, and the
 * accepted rows are handed out in batches of `tamano_lote`, with the remainder last.
 * hired_employees.csv loses its header row and has its fields stripped, with blank fields
 * becoming null. Every other file keeps only rows whose fields are all non-blank, unchanged.
 */
module CsvBatches {
  import opened Wrappers
  import opened Text
  import opened Seqs

  /** A field of an accepted row: `None` is a blank field of hired_employees.csv. */
  type Cell = Option<string>

  type CsvRow = seq<Cell>

  /** What escapes the generator: `next()` on an empty hired_employees.csv (re-raised as RuntimeError). */
  datatype CsvError = MissingHeader

  /** The batches yielded, in order, and `total_registros`. */
  datatype Batched = Batched(lotes: seq<seq<CsvRow>>, total: nat)

  predicate IsHiredFile(ruta: string)
  {
    EndsWith(ruta, "hired_employees.csv")
  }

  /** `not campo.strip()`. */
  predicate Blank(campo: string)
  {
    Strip(campo) == ""
  }

  /** `all(campo.strip() for campo in fila)`. */
  predicate Complete(fila: seq<string>)
  {
    forall i :: 0 <= i < |fila| ==> !Blank(fila[i])
  }

  /** `[campo.strip() if campo.strip() else None for campo in fila]`. */
  function StripFields(fila: seq<string>): (r: CsvRow)
    ensures |r| == |fila|
    ensures forall i :: 0 <= i < |fila| ==> r[i] == (if Blank(fila[i]) then None else Some(Strip(fila[i])))
  {
    if fila == [] then []
    else
      var n := |fila| - 1;
      StripFields(fila[..n]) + [if Blank(fila[n]) then None else Some(Strip(fila[n]))]
  }

  /** The fields as read, all present. */
  function AsRead(fila: seq<string>): (r: CsvRow)
    ensures |r| == |fila|
    ensures forall i :: 0 <= i < |fila| ==> r[i] == Some(fila[i])
  {
    if fila == [] then [] else AsRead(fila[..|fila| - 1]) + [Some(fila[|fila| - 1])]
  }

  /** The row a CSV line contributes to the current batch, if the file's filter accepts it. */
  function Accept(hired: bool, fila: seq<string>): Option<CsvRow>
  {
    if hired then
      if fila != [] && !Blank(fila[0]) then Some(StripFields(fila)) else None
    else if Complete(fila) then Some(AsRead(fila))
    else None
  }

  /** The lines the loop reads: everything after the header for hired_employees.csv. */
  function Body(ruta: string, filas: seq<seq<string>>): (r: Result<seq<seq<string>>, CsvError>)
    ensures r.Err? <==> IsHiredFile(ruta) && filas == []
    ensures r.Ok? && IsHiredFile(ruta) ==> [filas[0]] + r.value == filas
    ensures r.Ok? && !IsHiredFile(ruta) ==> r.value == filas
  {
    if IsHiredFile(ruta) then
      if filas == [] then Err(MissingHeader) else Ok(filas[1..])
    else Ok(filas)
  }

  /** The generator's state: batches yielded so far, `lote_actual` and `total_registros`. */
  datatype Run = Run(lotes: seq<seq<CsvRow>>, actual: seq<CsvRow>, total: nat)

  /** One iteration: append the accepted row, then yield once the batch is full. */
  function Step(st: Run, fila: Option<CsvRow>, tamanoLote: int): Run
  {
    var actual := if fila.Some? then st.actual + [fila.value] else st.actual;
    var total := if fila.Some? then st.total + 1 else st.total;
    if |actual| >= tamanoLote then Run(st.lotes + [actual], [], total) else Run(st.lotes, actual, total)
  }

  /** What the filter makes of each line. */
  function Outcomes(hired: bool, filas: seq<seq<string>>): (os: seq<Option<CsvRow>>)
    ensures |os| == |filas|
    ensures forall i :: 0 <= i < |filas| ==> os[i] == Accept(hired, filas[i])
  {
    seq(|filas|, i requires 0 <= i < |filas| => Accept(hired, filas[i]))
  }

  /** The state after the lines whose outcomes are `os`. */
  function RunOf(os: seq<Option<CsvRow>>, tamanoLote: int): Run
  {
    if os == [] then Run([], [], 0)
    else
      var n := |os| - 1;
      Step(RunOf(os[..n], tamanoLote), os[n], tamanoLote)
  }

  /** After the loop the last batch is yielded if it holds anything. */
  function Finish(st: Run): Batched
  {
    Batched(st.lotes + (if st.actual != [] then [st.actual] else []), st.total)
  }

  /** What the generator yields for a file with the given name and lines. */
  function BatchSpec(ruta: string, filas: seq<seq<string>>, tamanoLote: int): Result<Batched, CsvError>
  {
    match Body(ruta, filas)
    case Err(e) => Err(e)
    case Ok(cuerpo) => Ok(Finish(RunOf(Outcomes(IsHiredFile(ruta), cuerpo), tamanoLote)))
  }

  /** `procesar_csv_por_lotes(ruta, tamano_lote)`, with the file's lines given as `filas`. */
  method ProcesarCsvPorLotes(ruta: string, filas: seq<seq<string>>, tamanoLote: int) returns (r: Result<Batched, CsvError>)
    ensures r == BatchSpec(ruta, filas, tamanoLote)
  {
    var hired := IsHiredFile(ruta);
    var cuerpo := filas;
    if hired {
      if filas == [] {
        assert Body(ruta, filas) == Err(MissingHeader);
        return Err(MissingHeader);
      }
      cuerpo := filas[1..];
    }
    assert Body(ruta, filas) == Ok(cuerpo);
    var lotes: seq<seq<CsvRow>> := [];
    var loteActual: seq<CsvRow> := [];
    var totalRegistros: nat := 0;
    ghost var os := Outcomes(hired, cuerpo);
    var i := 0;
    while i < |cuerpo|
      invariant 0 <= i <= |cuerpo|
      invariant Run(lotes, loteActual, totalRegistros) == RunOf(os[..i], tamanoLote)
    {
      ghost var prev := Run(lotes, loteActual, totalRegistros);
      var fila := Accept(hired, cuerpo[i]);
      RunOfSnoc(os, i, tamanoLote);
      assert os[i] == fila;
      if fila.Some? {
        loteActual := loteActual + [fila.value];
        totalRegistros := totalRegistros + 1;
      }
      if |loteActual| >= tamanoLote {
        lotes := lotes + [loteActual];
        loteActual := [];
      }
      assert Run(lotes, loteActual, totalRegistros) == Step(prev, fila, tamanoLote);
      i := i + 1;
    }
    assert os[..i] == os;
    ghost var fin := Finish(Run(lotes, loteActual, totalRegistros));
    assert BatchSpec(ruta, filas, tamanoLote) == Ok(fin);
    if loteActual != [] {
      lotes := lotes + [loteActual];
    } else {
      assert lotes + [] == lotes;
    }
    r := Ok(Batched(lotes, totalRegistros));
  }

  lemma RunOfSnoc(os: seq<Option<CsvRow>>, i: nat, tamanoLote: int)
    requires i < |os|
    ensures RunOf(os[..i + 1], tamanoLote) == Step(RunOf(os[..i], tamanoLote), os[i], tamanoLote)
  {
    assert os[..i + 1][..i] == os[..i];
  }

  // ---------------------------------------------------------------------------
  // Properties

  /** The accepted rows of `filas`, in input order. */
  function Accepted(hired: bool, filas: seq<seq<string>>): seq<CsvRow>
  {
    Somes(Outcomes(hired, filas))
  }

  /** The batches laid end to end. */
  function Flatten(lotes: seq<seq<CsvRow>>): seq<CsvRow>
  {
    if lotes == [] then [] else Flatten(lotes[..|lotes| - 1]) + lotes[|lotes| - 1]
  }

  lemma FlattenSnoc(lotes: seq<seq<CsvRow>>, b: seq<CsvRow>)
    ensures Flatten(lotes + [b]) == Flatten(lotes) + b
  {
    assert (lotes + [b])[..|lotes|] == lotes;
  }

  /**
   * While reading, every yielded batch is full, the current batch is not, and the yielded
   * batches followed by the current one are the accepted rows so far, which `total` counts.
   */
  lemma {:induction false} RunInvariant(os: seq<Option<CsvRow>>, tamanoLote: int)
    requires tamanoLote >= 1
    ensures var st := RunOf(os, tamanoLote);
      && (forall k :: 0 <= k < |st.lotes| ==> |st.lotes[k]| == tamanoLote)
      && |st.actual| < tamanoLote
      && Flatten(st.lotes) + st.actual == Somes(os)
      && st.total == |Somes(os)|
  {
    if os != [] {
      var n := |os| - 1;
      var st := RunOf(os[..n], tamanoLote);
      RunInvariant(os[..n], tamanoLote);
      var actual := if os[n].Some? then st.actual + [os[n].value] else st.actual;
      if |actual| >= tamanoLote {
        FlattenSnoc(st.lotes, actual);
      }
    }
  }

  /**
   * With a positive batch size every batch is non-empty and holds at most `tamanoLote` rows,
   * all but the last exactly `tamanoLote`; laid end to end they are the accepted rows in input
   * order (after the header for hired_employees.csv), and `total` is their number.
   */
  lemma BatchSizes(ruta: string, filas: seq<seq<string>>, tamanoLote: int)
    requires tamanoLote >= 1
    ensures BatchSpec(ruta, filas, tamanoLote).Err? <==> IsHiredFile(ruta) && filas == []
    ensures BatchSpec(ruta, filas, tamanoLote).Ok? ==>
      var b := BatchSpec(ruta, filas, tamanoLote).value;
      var cuerpo := if IsHiredFile(ruta) then filas[1..] else filas;
      && (forall k :: 0 <= k < |b.lotes| ==> 1 <= |b.lotes[k]| <= tamanoLote)
      && (forall k :: 0 <= k < |b.lotes| - 1 ==> |b.lotes[k]| == tamanoLote)
      && Flatten(b.lotes) == Accepted(IsHiredFile(ruta), cuerpo)
      && b.total == |Accepted(IsHiredFile(ruta), cuerpo)|
  {
    if Body(ruta, filas).Ok? {
      var hired := IsHiredFile(ruta);
      var cuerpo := Body(ruta, filas).value;
      assert cuerpo == if hired then filas[1..] else filas;
      var os := Outcomes(hired, cuerpo);
      var st := RunOf(os, tamanoLote);
      RunInvariant(os, tamanoLote);
      FinishShape(st, tamanoLote, Somes(os));
    }
  }

  /** Finishing a run that keeps the invariant yields batches of 1..`tamanoLote` rows, all full but the last. */
  lemma FinishShape(st: Run, tamanoLote: int, acc: seq<CsvRow>)
    requires tamanoLote >= 1
    requires forall k :: 0 <= k < |st.lotes| ==> |st.lotes[k]| == tamanoLote
    requires |st.actual| < tamanoLote
    requires Flatten(st.lotes) + st.actual == acc && st.total == |acc|
    ensures var b := Finish(st);
      && (forall k :: 0 <= k < |b.lotes| ==> 1 <= |b.lotes[k]| <= tamanoLote)
      && (forall k :: 0 <= k < |b.lotes| - 1 ==> |b.lotes[k]| == tamanoLote)
      && Flatten(b.lotes) == acc
      && b.total == |acc|
  {
    var lotes := Finish(st).lotes;
    if st.actual != [] {
      assert lotes == st.lotes + [st.actual];
      FlattenSnoc(st.lotes, st.actual);
      forall k | 0 <= k < |lotes| ensures 1 <= |lotes[k]| <= tamanoLote {
        if k < |st.lotes| {
          assert lotes[k] == st.lotes[k];
        }
      }
      forall k | 0 <= k < |lotes| - 1 ensures |lotes[k]| == tamanoLote {
        assert lotes[k] == st.lotes[k];
      }
    } else {
      assert lotes == st.lotes + [];
      assert lotes == st.lotes;
      assert Flatten(st.lotes) + [] == Flatten(st.lotes);
    }
  }

  /**
   * With `tamano_lote <= 0` the check after every line yields: one batch per line read,
   * holding that line's row or nothing at all.
   */
  lemma {:induction false} NonPositiveBatchSize(os: seq<Option<CsvRow>>, tamanoLote: int)
    requires tamanoLote <= 0
    ensures var st := RunOf(os, tamanoLote);
      && st.actual == []
      && |st.lotes| == |os|
      && (forall k :: 0 <= k < |os| ==> st.lotes[k] == (if os[k].Some? then [os[k].value] else []))
  {
    if os != [] {
      var n := |os| - 1;
      NonPositiveBatchSize(os[..n], tamanoLote);
      assert forall k :: 0 <= k < n ==> os[..n][k] == os[k];
    }
  }

  /**
   * hired_employees.csv: a line is accepted exactly when it has a first field that is not all
   * whitespace; each field is kept stripped, and a field is null exactly when it is all whitespace.
   */
  lemma HiredFilter(fila: seq<string>)
    ensures Accept(true, fila).Some? <==> |fila| > 0 && !AllSpace(fila[0])
    ensures Accept(true, fila).Some? ==>
      var v := Accept(true, fila).value;
      && |v| == |fila|
      && (forall i :: 0 <= i < |fila| ==> (v[i].None? <==> AllSpace(fila[i])))
      && (forall i :: 0 <= i < |fila| && v[i].Some? ==> v[i].value == Strip(fila[i]) && v[i].value != "")
  {
    forall i | 0 <= i < |fila| ensures Blank(fila[i]) <==> AllSpace(fila[i]) {
      StripEmptyIffAllSpace(fila[i]);
    }
  }

  /**
   * Other files: a line is accepted exactly when none of its fields is all whitespace (so a
   * line with no fields is accepted), and its fields are kept as read.
   */
  lemma OtherFilter(fila: seq<string>)
    ensures Accept(false, fila).Some? <==> forall i :: 0 <= i < |fila| ==> !AllSpace(fila[i])
    ensures Accept(false, fila).Some? ==>
      var v := Accept(false, fila).value;
      |v| == |fila| && forall i :: 0 <= i < |fila| ==> v[i] == Some(fila[i])
  {
    forall i | 0 <= i < |fila| ensures Blank(fila[i]) <==> AllSpace(fila[i]) {
      StripEmptyIffAllSpace(fila[i]);
    }
  }

  /** A row in the batches sits in one of them. */
  lemma {:induction false} FlattenMember(lotes: seq<seq<CsvRow>>, x: CsvRow)
    requires x in Flatten(lotes)
    ensures exists k, j :: 0 <= k < |lotes| && 0 <= j < |lotes[k]| && lotes[k][j] == x
  {
    var n := |lotes| - 1;
    if x in Flatten(lotes[..n]) {
      FlattenMember(lotes[..n], x);
      var k, j :| 0 <= k < n && 0 <= j < |lotes[..n][k]| && lotes[..n][k][j] == x;
      assert lotes[k][j] == x;
    } else {
      var j :| 0 <= j < |lotes[n]| && lotes[n][j] == x;
    }
  }

  /**
   * Outside hired_employees.csv a line with no fields (a blank line) is accepted and reaches a
   * batch as a row with no fields.
   */
  lemma BlankLineBatched(ruta: string, filas: seq<seq<string>>, tamanoLote: int, i: nat)
    requires !IsHiredFile(ruta) && tamanoLote >= 1 && i < |filas| && filas[i] == []
    ensures var b := BatchSpec(ruta, filas, tamanoLote).value;
      exists k, j :: 0 <= k < |b.lotes| && 0 <= j < |b.lotes[k]| && b.lotes[k][j] == []
  {
    var os := Outcomes(false, filas);
    assert os[i] == Some([]);
    SomeListed(os, i);
    BatchSizes(ruta, filas, tamanoLote);
    FlattenMember(BatchSpec(ruta, filas, tamanoLote).value.lotes, []);
  }
}
