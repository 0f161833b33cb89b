/**
 * `validar_reglas_calidad`: for hired employees, the distinct department and job ids of the
 * batch are looked up once per set, and a record is kept only if each of its non-null foreign
 * keys exists; every missing key is reported. Departments and jobs pass unchanged.
 */
module Quality {
  import opened Wrappers
  import opened Domain
  import opened Seqs
  import opened Parsing

  /** Each non-null foreign key of an employee row names an existing row. */
  predicate ReferencesExist(r: Row, depKeys: set<int>, jobKeys: set<int>)
  {
    r.Employee? ==>
      && (r.idDepartamento.Some? ==> r.idDepartamento.value in depKeys)
      && (r.idTrabajo.Some? ==> r.idTrabajo.value in jobKeys)
  }

  /** The errors for the record at index `i`: a missing department first, then a missing job. */
  function KeyErrors(i: nat, r: Row, depKeys: set<int>, jobKeys: set<int>): (es: seq<RecordError>)
    requires r.Employee?
    ensures |es| <= 2
    ensures es == [] <==> ReferencesExist(r, depKeys, jobKeys)
    ensures forall k :: 0 <= k < |es| ==> es[k].indice == i && es[k].tabla == EmpleadosContratados
  {
    (if r.idDepartamento.Some? && r.idDepartamento.value !in depKeys
     then [RecordError(i, EmpleadosContratados, MissingReference("id_departamento", r.idDepartamento.value))]
     else [])
    + (if r.idTrabajo.Some? && r.idTrabajo.value !in jobKeys
       then [RecordError(i, EmpleadosContratados, MissingReference("id_trabajo", r.idTrabajo.value))]
       else [])
  }

  predicate AllOf(t: Table, rows: seq<Row>)
  {
    forall k :: 0 <= k < |rows| ==> RowOf(t, rows[k])
  }

  /** The employees whose references all exist, in input order. */
  function AcceptedEmployees(rows: seq<Row>, depKeys: set<int>, jobKeys: set<int>): (acc: seq<Row>)
    ensures |acc| <= |rows|
    ensures forall k :: 0 <= k < |acc| ==> ReferencesExist(acc[k], depKeys, jobKeys)
  {
    if rows == [] then []
    else
      var n := |rows| - 1;
      AcceptedEmployees(rows[..n], depKeys, jobKeys)
      + (if ReferencesExist(rows[n], depKeys, jobKeys) then [rows[n]] else [])
  }

  /** All errors of the employee batch, record by record. */
  function EmployeeErrors(rows: seq<Row>, depKeys: set<int>, jobKeys: set<int>): seq<RecordError>
    requires AllOf(EmpleadosContratados, rows)
  {
    if rows == [] then []
    else
      var n := |rows| - 1;
      EmployeeErrors(rows[..n], depKeys, jobKeys) + KeyErrors(n, rows[n], depKeys, jobKeys)
  }

  /** Rows kept by the quality rules of table `t`. */
  function Accepted(t: Table, rows: seq<Row>, depKeys: set<int>, jobKeys: set<int>): seq<Row>
  {
    if t == EmpleadosContratados then AcceptedEmployees(rows, depKeys, jobKeys) else rows
  }

  /** Quality errors of table `t`. */
  function QualityErrors(t: Table, rows: seq<Row>, depKeys: set<int>, jobKeys: set<int>): seq<RecordError>
    requires AllOf(t, rows)
  {
    if t == EmpleadosContratados then EmployeeErrors(rows, depKeys, jobKeys) else []
  }

  /**
   * `validar_reglas_calidad(tabla, registros, conexion)`, with the stored department and job
   * ids standing for the two existence queries.
   */
  method ApplyQualityRules(t: Table, registros: seq<Row>, depKeys: set<int>, jobKeys: set<int>)
    returns (accepted: seq<Row>, errors: seq<RecordError>)
    requires AllOf(t, registros)
    ensures accepted == Accepted(t, registros, depKeys, jobKeys)
    ensures errors == QualityErrors(t, registros, depKeys, jobKeys)
    ensures t != EmpleadosContratados ==> accepted == registros && errors == []
  {
    if t != EmpleadosContratados {
      return registros, [];
    }
    // Gather the referenced ids, then one lookup per set.
    var idsDep := set r | r in registros && r.idDepartamento.Some? :: r.idDepartamento.value;
    var idsJob := set r | r in registros && r.idTrabajo.Some? :: r.idTrabajo.value;
    var depValid := idsDep * depKeys;
    var jobValid := idsJob * jobKeys;
    accepted, errors := [], [];
    var i := 0;
    while i < |registros|
      invariant 0 <= i <= |registros|
      invariant accepted == AcceptedEmployees(registros[..i], depKeys, jobKeys)
      invariant errors == EmployeeErrors(registros[..i], depKeys, jobKeys)
    {
      var r := registros[i];
      assert registros[..i + 1][..i] == registros[..i];
      var ok := true;
      if r.idDepartamento.Some? && r.idDepartamento.value !in depValid {
        errors := errors + [RecordError(i, t, MissingReference("id_departamento", r.idDepartamento.value))];
        ok := false;
      }
      if r.idTrabajo.Some? && r.idTrabajo.value !in jobValid {
        errors := errors + [RecordError(i, t, MissingReference("id_trabajo", r.idTrabajo.value))];
        ok := false;
      }
      if ok {
        accepted := accepted + [r];
      }
      i := i + 1;
    }
    assert registros[..i] == registros;
  }

  /** `idx` picks out of `rows`, in order, exactly the records whose references exist, and `acc` holds them. */
  ghost predicate Picks(rows: seq<Row>, acc: seq<Row>, idx: seq<nat>, depKeys: set<int>, jobKeys: set<int>)
  {
    && |idx| == |acc| && Increasing(idx, |rows|)
    && (forall k :: 0 <= k < |idx| ==> acc[k] == rows[idx[k]])
    && (forall i :: 0 <= i < |rows| ==> (ReferencesExist(rows[i], depKeys, jobKeys) <==> i in idx))
  }

  /**
   * An employee record is accepted exactly when each of its non-null foreign keys exists; the
   * accepted records keep their input order (`idx` picks them out).
   */
  lemma {:induction false} AcceptedIffReferencesExist(rows: seq<Row>, depKeys: set<int>, jobKeys: set<int>)
    returns (idx: seq<nat>)
    ensures var acc := AcceptedEmployees(rows, depKeys, jobKeys);
      && |idx| == |acc| && Increasing(idx, |rows|)
      && (forall k :: 0 <= k < |idx| ==> acc[k] == rows[idx[k]])
      && (forall i :: 0 <= i < |rows| ==> (ReferencesExist(rows[i], depKeys, jobKeys) <==> i in idx))
  {
    if rows == [] {
      idx := [];
    } else {
      var n := |rows| - 1;
      var pidx := AcceptedIffReferencesExist(rows[..n], depKeys, jobKeys);
      if ReferencesExist(rows[n], depKeys, jobKeys) {
        idx := pidx + [n];
        PicksKept(rows, AcceptedEmployees(rows[..n], depKeys, jobKeys), pidx, depKeys, jobKeys);
      } else {
        idx := pidx;
        PicksDropped(rows, AcceptedEmployees(rows[..n], depKeys, jobKeys), pidx, depKeys, jobKeys);
      }
    }
  }

  /** A last record whose references exist is picked after the earlier ones. */
  lemma PicksKept(rows: seq<Row>, pacc: seq<Row>, pidx: seq<nat>, depKeys: set<int>, jobKeys: set<int>)
    requires rows != [] && ReferencesExist(rows[|rows| - 1], depKeys, jobKeys)
    requires Picks(rows[..|rows| - 1], pacc, pidx, depKeys, jobKeys)
    ensures var n := |rows| - 1; Picks(rows, pacc + [rows[n]], pidx + [n], depKeys, jobKeys)
  {
    var n := |rows| - 1;
    var pre := rows[..n];
    var acc := pacc + [rows[n]];
    var idx := pidx + [n];
    forall k | 0 <= k < |idx| ensures acc[k] == rows[idx[k]] {
      if k < |pidx| {
        assert acc[k] == pacc[k] == pre[pidx[k]];
      }
    }
    forall i | 0 <= i < |rows| ensures ReferencesExist(rows[i], depKeys, jobKeys) <==> i in idx {
      if i < n {
        assert pre[i] == rows[i];
        assert i in idx <==> i in pidx;
      }
    }
  }

  /** A last record with a missing reference is not picked. */
  lemma PicksDropped(rows: seq<Row>, pacc: seq<Row>, pidx: seq<nat>, depKeys: set<int>, jobKeys: set<int>)
    requires rows != [] && !ReferencesExist(rows[|rows| - 1], depKeys, jobKeys)
    requires Picks(rows[..|rows| - 1], pacc, pidx, depKeys, jobKeys)
    ensures Picks(rows, pacc, pidx, depKeys, jobKeys)
  {
    var n := |rows| - 1;
    var pre := rows[..n];
    forall k | 0 <= k < |pidx| ensures pacc[k] == rows[pidx[k]] {
      assert pre[pidx[k]] == rows[pidx[k]];
    }
    forall i | 0 <= i < |rows| ensures ReferencesExist(rows[i], depKeys, jobKeys) <==> i in pidx {
      if i < n {
        assert pre[i] == rows[i];
      } else {
        assert n !in pidx;
      }
    }
  }

  /** Number of missing foreign keys of one record (0, 1 or 2). */
  function MissingKeys(r: Row, depKeys: set<int>, jobKeys: set<int>): nat
  {
    if !r.Employee? then 0
    else
      (if r.idDepartamento.Some? && r.idDepartamento.value !in depKeys then 1 else 0)
      + (if r.idTrabajo.Some? && r.idTrabajo.value !in jobKeys then 1 else 0)
  }

  function TotalMissingKeys(rows: seq<Row>, depKeys: set<int>, jobKeys: set<int>): nat
  {
    if rows == [] then 0
    else TotalMissingKeys(rows[..|rows| - 1], depKeys, jobKeys) + MissingKeys(rows[|rows| - 1], depKeys, jobKeys)
  }

  /**
   * One error per missing key: the error list is as long as the number of missing keys, each
   * error names a record of the batch, a foreign-key field of it and that field's missing value.
   */
  lemma {:induction false} OneErrorPerMissingKey(rows: seq<Row>, depKeys: set<int>, jobKeys: set<int>)
    requires AllOf(EmpleadosContratados, rows)
    ensures var es := EmployeeErrors(rows, depKeys, jobKeys);
      && |es| == TotalMissingKeys(rows, depKeys, jobKeys)
      && forall k :: 0 <= k < |es| ==>
           (es[k].indice < |rows| && es[k].tabla == EmpleadosContratados
            && es[k].detalle.MissingReference?
            && ((es[k].detalle.field == "id_departamento"
                 && rows[es[k].indice].idDepartamento == Some(es[k].detalle.value) && es[k].detalle.value !in depKeys)
                || (es[k].detalle.field == "id_trabajo"
                 && rows[es[k].indice].idTrabajo == Some(es[k].detalle.value) && es[k].detalle.value !in jobKeys)))
  {
    if rows != [] {
      var n := |rows| - 1;
      var pre := rows[..n];
      assert AllOf(EmpleadosContratados, pre);
      OneErrorPerMissingKey(pre, depKeys, jobKeys);
      var pe := EmployeeErrors(pre, depKeys, jobKeys);
      var ke := KeyErrors(n, rows[n], depKeys, jobKeys);
      var es := EmployeeErrors(rows, depKeys, jobKeys);
      assert es == pe + ke;
      assert forall i :: 0 <= i < n ==> pre[i] == rows[i];
      forall k | |pe| <= k < |es|
        ensures es[k].detalle.MissingReference?
        ensures (es[k].detalle.field == "id_departamento"
                 && rows[es[k].indice].idDepartamento == Some(es[k].detalle.value) && es[k].detalle.value !in depKeys)
             || (es[k].detalle.field == "id_trabajo"
                 && rows[es[k].indice].idTrabajo == Some(es[k].detalle.value) && es[k].detalle.value !in jobKeys)
      {
        assert es[k] == ke[k - |pe|];
      }
    }
  }

  /** Every rejected employee is reported, by one error or by two (both keys missing). */
  lemma {:induction false} RejectedReported(rows: seq<Row>, depKeys: set<int>, jobKeys: set<int>)
    requires AllOf(EmpleadosContratados, rows)
    ensures var rejected := |rows| - |AcceptedEmployees(rows, depKeys, jobKeys)|;
      rejected <= TotalMissingKeys(rows, depKeys, jobKeys) <= 2 * rejected
  {
    if rows != [] {
      var n := |rows| - 1;
      var pre := rows[..n];
      assert AllOf(EmpleadosContratados, pre);
      RejectedReported(pre, depKeys, jobKeys);
      var r := rows[n];
      assert r.Employee?;
      assert MissingKeys(r, depKeys, jobKeys) == 0 <==> ReferencesExist(r, depKeys, jobKeys);
    }
  }

  /** When every reference exists, every employee is accepted, in order, and nothing is reported. */
  lemma {:induction false} AllReferencesExist(rows: seq<Row>, depKeys: set<int>, jobKeys: set<int>)
    requires AllOf(EmpleadosContratados, rows)
    requires forall k :: 0 <= k < |rows| ==> ReferencesExist(rows[k], depKeys, jobKeys)
    ensures AcceptedEmployees(rows, depKeys, jobKeys) == rows
    ensures EmployeeErrors(rows, depKeys, jobKeys) == []
  {
    AllEmployeesAccepted(rows, depKeys, jobKeys);
    NoEmployeeErrors(rows, depKeys, jobKeys);
  }

  lemma {:induction false} AllEmployeesAccepted(rows: seq<Row>, depKeys: set<int>, jobKeys: set<int>)
    requires forall k :: 0 <= k < |rows| ==> ReferencesExist(rows[k], depKeys, jobKeys)
    ensures AcceptedEmployees(rows, depKeys, jobKeys) == rows
  {
    if rows != [] {
      var n := |rows| - 1;
      var pre := rows[..n];
      AllEmployeesAccepted(pre, depKeys, jobKeys);
      assert ReferencesExist(rows[n], depKeys, jobKeys);
      assert AcceptedEmployees(rows, depKeys, jobKeys) == pre + [rows[n]];
      assert pre + [rows[n]] == rows;
    }
  }

  lemma {:induction false} NoEmployeeErrors(rows: seq<Row>, depKeys: set<int>, jobKeys: set<int>)
    requires AllOf(EmpleadosContratados, rows)
    requires forall k :: 0 <= k < |rows| ==> ReferencesExist(rows[k], depKeys, jobKeys)
    ensures EmployeeErrors(rows, depKeys, jobKeys) == []
  {
    if rows != [] {
      var n := |rows| - 1;
      var pre := rows[..n];
      assert forall k :: 0 <= k < n ==> pre[k] == rows[k];
      assert AllOf(EmpleadosContratados, pre);
      NoEmployeeErrors(pre, depKeys, jobKeys);
      assert KeyErrors(n, rows[n], depKeys, jobKeys) == [];
    }
  }
}
