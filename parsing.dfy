/**
 * `_parsear_registros_para_tabla`: every raw item of a group is validated against the
 * table's record model; valid rows are kept in order and each invalid item yields one
 * `{indice, tabla, detalle}` error.
 */
module Parsing {
  import opened Wrappers
  import opened Domain
  import opened Seqs
  import opened Records

  /** What is wrong with a record: field errors from the model, or a missing referenced row. */
  datatype Detail = FieldIssues(issues: seq<Issue>) | MissingReference(field: string, value: int)

  /** An entry of the error lists returned to the caller. */
  datatype RecordError = RecordError(indice: nat, tabla: Table, detalle: Detail)

  datatype Parsed = Parsed(valid: seq<Row>, errors: seq<RecordError>)

  predicate AllMappings(datos: seq<Json>)
  {
    forall i :: 0 <= i < |datos| ==> datos[i].JObject?
  }

  /** The first item that is not a mapping (where `modelo(**item)` raises a TypeError). */
  function FirstNonMapping(datos: seq<Json>): (r: Option<nat>)
    ensures r.None? <==> AllMappings(datos)
    ensures r.Some? ==> (r.value < |datos| && !datos[r.value].JObject?
                         && forall j :: 0 <= j < r.value ==> datos[j].JObject?)
  {
    if datos == [] then None
    else if !datos[0].JObject? then Some(0)
    else match FirstNonMapping(datos[1..])
      case None => None
      case Some(j) => Some(j + 1)
  }

  /** Validation outcome of one item (a non-mapping item has no outcome of its own: see ParseSpec). */
  function OutcomeOf(t: Table, item: Json, dc: DateCodec): Result<Row, seq<Issue>>
  {
    if item.JObject? then Validate(t, item.fields, dc) else Err([])
  }

  function Outcomes(t: Table, datos: seq<Json>, dc: DateCodec): (os: seq<Result<Row, seq<Issue>>>)
    ensures |os| == |datos|
    ensures forall i :: 0 <= i < |datos| ==> os[i] == OutcomeOf(t, datos[i], dc)
  {
    seq(|datos|, i requires 0 <= i < |datos| => OutcomeOf(t, datos[i], dc))
  }

  /** The successful values, in order. */
  function OkValues(os: seq<Result<Row, seq<Issue>>>): seq<Row>
  {
    if os == [] then []
    else
      var n := |os| - 1;
      OkValues(os[..n]) + (if os[n].Ok? then [os[n].value] else [])
  }

  /** One error entry per failed outcome, carrying its position, in order. */
  function ErrorEntries(t: Table, os: seq<Result<Row, seq<Issue>>>): seq<RecordError>
  {
    if os == [] then []
    else
      var n := |os| - 1;
      ErrorEntries(t, os[..n]) + (if os[n].Err? then [RecordError(n, t, FieldIssues(os[n].error))] else [])
  }

  /** What parsing a group yields: a TypeError on a non-mapping item, otherwise the split. */
  function ParseSpec(t: Table, datos: seq<Json>, dc: DateCodec): Result<Parsed, Error>
  {
    match FirstNonMapping(datos)
    case Some(i) => Err(NotAMapping(i))
    case None =>
      var os := Outcomes(t, datos, dc);
      Ok(Parsed(OkValues(os), ErrorEntries(t, os)))
  }

  /** Appending one outcome extends the valid rows and the errors by that outcome alone. */
  lemma OutcomesSnoc(t: Table, os: seq<Result<Row, seq<Issue>>>, i: nat)
    requires i < |os|
    ensures OkValues(os[..i + 1]) == OkValues(os[..i]) + (if os[i].Ok? then [os[i].value] else [])
    ensures ErrorEntries(t, os[..i + 1])
      == ErrorEntries(t, os[..i]) + (if os[i].Err? then [RecordError(i, t, FieldIssues(os[i].error))] else [])
  {
    assert os[..i + 1][..i] == os[..i];
  }

  /**
   * After the first `i` items: all of them are mappings, `valid` holds their valid rows in
   * order and `errors` one entry per invalid one.
   */
  ghost predicate ParsedUpTo(t: Table, datos: seq<Json>, dc: DateCodec, i: nat, valid: seq<Row>, errors: seq<RecordError>)
  {
    && i <= |datos|
    && (forall j :: 0 <= j < i ==> datos[j].JObject?)
    && valid == OkValues(Outcomes(t, datos, dc)[..i])
    && errors == ErrorEntries(t, Outcomes(t, datos, dc)[..i])
  }

  /** One more mapping: a valid item adds its row, an invalid one its error entry. */
  lemma ParseAdvance(t: Table, datos: seq<Json>, dc: DateCodec, i: nat, valid: seq<Row>, errors: seq<RecordError>,
                     v: Result<Row, seq<Issue>>)
    requires ParsedUpTo(t, datos, dc, i, valid, errors)
    requires i < |datos| && datos[i].JObject? && v == Validate(t, datos[i].fields, dc)
    ensures v.Ok? ==> ParsedUpTo(t, datos, dc, i + 1, valid + [v.value], errors)
    ensures v.Err? ==> ParsedUpTo(t, datos, dc, i + 1, valid, errors + [RecordError(i, t, FieldIssues(v.error))])
  {
    var os := Outcomes(t, datos, dc);
    assert os[i] == v;
    OutcomesSnoc(t, os, i);
  }

  /** `_parsear_registros_para_tabla(tabla, datos)`. */
  method ParseRecords(tabla: Json, datos: seq<Json>, dc: DateCodec) returns (r: Result<Parsed, Error>)
    ensures TableOf(tabla).None? ==> r == Err(UnsupportedTable)
    ensures TableOf(tabla).Some? ==> r == ParseSpec(TableOf(tabla).value, datos, dc)
  {
    var table := TableOf(tabla);
    if table.None? {
      return Err(UnsupportedTable);
    }
    var t := table.value;
    var valid: seq<Row> := [];
    var errors: seq<RecordError> := [];
    var i := 0;
    while i < |datos|
      invariant ParsedUpTo(t, datos, dc, i, valid, errors)
    {
      if !datos[i].JObject? {
        assert FirstNonMapping(datos) == Some(i);
        return Err(NotAMapping(i));
      }
      var v := Validate(t, datos[i].fields, dc);
      ParseAdvance(t, datos, dc, i, valid, errors, v);
      if v.Ok? {
        valid := valid + [v.value];
      } else {
        errors := errors + [RecordError(i, t, FieldIssues(v.error))];
      }
      i := i + 1;
    }
    assert Outcomes(t, datos, dc)[..i] == Outcomes(t, datos, dc);
    assert AllMappings(datos);
    r := Ok(Parsed(valid, errors));
  }

  /** Valid rows and errors together account for every input item. */
  lemma {:induction false} ParseCounts(t: Table, os: seq<Result<Row, seq<Issue>>>)
    ensures |OkValues(os)| + |ErrorEntries(t, os)| == |os|
  {
    if os != [] {
      ParseCounts(t, os[..|os| - 1]);
    }
  }

  /**
   * The valid rows are, in input order, exactly the rows of the items that validate:
   * `idx` picks them out.
   */
  lemma {:induction false} ValidRowsInOrder(os: seq<Result<Row, seq<Issue>>>) returns (idx: seq<nat>)
    ensures |idx| == |OkValues(os)| && Increasing(idx, |os|)
    ensures forall k :: 0 <= k < |idx| ==> os[idx[k]] == Ok(OkValues(os)[k])
    ensures forall i :: 0 <= i < |os| ==> (os[i].Ok? <==> i in idx)
  {
    if os == [] {
      idx := [];
    } else {
      var n := |os| - 1;
      var pre := os[..n];
      var pidx := ValidRowsInOrder(pre);
      var pv := OkValues(pre);
      assert forall i :: 0 <= i < n ==> pre[i] == os[i];
      if os[n].Ok? {
        idx := pidx + [n];
        assert OkValues(os) == pv + [os[n].value];
        forall k | 0 <= k < |idx| ensures os[idx[k]] == Ok(OkValues(os)[k]) {
          if k < |pidx| {
            assert idx[k] == pidx[k] && OkValues(os)[k] == pv[k];
          }
        }
        forall i | 0 <= i < |os| ensures os[i].Ok? <==> i in idx {
          if i < n {
            assert i in idx <==> i in pidx;
          }
        }
      } else {
        idx := pidx;
        assert OkValues(os) == pv;
        forall i | 0 <= i < |os| ensures os[i].Ok? <==> i in idx {
          if i == n {
            assert n !in pidx;
          }
        }
      }
    }
  }

  /**
   * Each failed item has exactly one error, carrying its index, the table and the field
   * errors; no other item has one.
   */
  lemma {:induction false} ErrorsPerItem(t: Table, os: seq<Result<Row, seq<Issue>>>)
    ensures var errors := ErrorEntries(t, os);
      && (forall k :: 0 <= k < |errors| ==>
            (errors[k].indice < |os| && errors[k].tabla == t && os[errors[k].indice].Err?
             && errors[k].detalle == FieldIssues(os[errors[k].indice].error)))
      && (forall a, b :: 0 <= a < b < |errors| ==> errors[a].indice < errors[b].indice)
      && (forall i :: 0 <= i < |os| && os[i].Err? ==> ErrorFor(errors, i))
  {
    ErrorEntriesSound(t, os);
    ErrorEntriesComplete(t, os);
  }

  lemma {:induction false} ErrorEntriesSound(t: Table, os: seq<Result<Row, seq<Issue>>>)
    ensures var errors := ErrorEntries(t, os);
      && (forall k :: 0 <= k < |errors| ==> errors[k].indice < |os| && errors[k].tabla == t)
      && (forall k :: 0 <= k < |errors| ==>
            (errors[k].indice < |os| && os[errors[k].indice].Err?
             && errors[k].detalle == FieldIssues(os[errors[k].indice].error)))
      && (forall a, b :: 0 <= a < b < |errors| ==> errors[a].indice < errors[b].indice)
  {
    if os != [] {
      var n := |os| - 1;
      ErrorEntriesSound(t, os[..n]);
      var errors := ErrorEntries(t, os);
      var last := if os[n].Err? then [RecordError(n, t, FieldIssues(os[n].error))] else [];
      assert errors == ErrorEntries(t, os[..n]) + last;
      forall k | 0 <= k < |errors|
        ensures errors[k].indice < |os| && errors[k].tabla == t && os[errors[k].indice].Err?
                && errors[k].detalle == FieldIssues(os[errors[k].indice].error)
      {
        if k < |ErrorEntries(t, os[..n])| {
          var e := ErrorEntries(t, os[..n])[k];
          assert errors[k] == e && e.indice < n;
          assert os[..n][e.indice] == os[e.indice];
        }
      }
      forall a, b | 0 <= a < b < |errors| ensures errors[a].indice < errors[b].indice {
        assert errors[a] == ErrorEntries(t, os[..n])[a];
        if b < |ErrorEntries(t, os[..n])| {
          assert errors[b] == ErrorEntries(t, os[..n])[b];
        }
      }
    }
  }

  /** Some error entry names item `i`. */
  predicate ErrorFor(errors: seq<RecordError>, i: int)
  {
    exists k :: 0 <= k < |errors| && errors[k].indice == i
  }

  lemma {:induction false} ErrorEntriesComplete(t: Table, os: seq<Result<Row, seq<Issue>>>)
    ensures forall i :: 0 <= i < |os| && os[i].Err? ==> ErrorFor(ErrorEntries(t, os), i)
  {
    if os != [] {
      var n := |os| - 1;
      ErrorEntriesComplete(t, os[..n]);
      var errors := ErrorEntries(t, os);
      var last := if os[n].Err? then [RecordError(n, t, FieldIssues(os[n].error))] else [];
      assert errors == ErrorEntries(t, os[..n]) + last;
      forall i | 0 <= i < |os| && os[i].Err? ensures ErrorFor(errors, i) {
        if i < n {
          assert os[..n][i] == os[i];
          var k :| 0 <= k < |ErrorEntries(t, os[..n])| && ErrorEntries(t, os[..n])[k].indice == i;
          assert errors[k] == ErrorEntries(t, os[..n])[k];
        } else {
          assert errors[|ErrorEntries(t, os[..n])|].indice == n;
        }
      }
    }
  }
}
