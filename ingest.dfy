/**
 * `POST /transacciones` (`recibir_transacciones`): the payload is normalised into groups of raw
 * records keyed by table, every group's size is checked against the 1..1000 bound before any
 * change, and then each group in turn is parsed, filtered by the quality rules (against the
 * store as the earlier groups left it) and upserted. The first fatal error ends the request;
 * groups already upserted stay committed.
 */
module Ingest {
  import opened Wrappers
  import opened Domain
  import opened Records
  import opened Parsing
  import opened Quality
  import opened Store

  /** Largest group accepted by one request. */
  const MaxBatch: nat := 1000

  /** One `tabla: registros` entry of the normalised payload. */
  datatype Group = Group(key: Json, records: seq<Json>)

  /** The `procesados[tabla]` entry of the response. */
  datatype GroupReport = GroupReport(tabla: Table, recibidos: nat, validos: nat, upsert: nat)

  /** The response body: per-group counts and the record errors of all groups. */
  datatype Summary = Summary(procesados: seq<GroupReport>, errores: seq<RecordError>)

  /** One group's report with its model-validation errors and its quality-rule errors. */
  datatype GroupOutcome = GroupOutcome(report: GroupReport, modelErrors: seq<RecordError>, qualityErrors: seq<RecordError>)

  /** The payload names one group explicitly. */
  predicate SingleMode(payload: map<string, Json>)
  {
    "tabla" in payload && "registros" in payload
  }

  /** Groups keyed by the first `n` registry names present in the payload, in registry order. */
  function NamedGroups(payload: map<string, Json>, n: nat): Result<seq<Group>, Error>
    requires n <= |ValidTables|
  {
    if n == 0 then Ok([])
    else
      match NamedGroups(payload, n - 1)
      case Err(e) => Err(e)
      case Ok(gs) =>
        var name := TableName(ValidTables[n - 1]);
        if name !in payload then Ok(gs)
        else if !payload[name].JList? then Err(NotAList(name))
        else Ok(gs + [Group(JStr(name), payload[name].items)])
  }

  /** The groups of a payload, before the emptiness and size checks. */
  function GroupsOf(payload: map<string, Json>): Result<seq<Group>, Error>
  {
    if SingleMode(payload) then
      if !payload["registros"].JList? then Err(NotAList("registros"))
      else if !Hashable(payload["tabla"]) then Err(Unhashable)
      else Ok([Group(payload["tabla"], payload["registros"].items)])
    else NamedGroups(payload, |ValidTables|)
  }

  predicate SizeInRange(g: Group)
  {
    1 <= |g.records| <= MaxBatch
  }

  /** The first group whose size is outside 1..1000. */
  function FirstBadSize(gs: seq<Group>): (r: Option<nat>)
    ensures r.None? <==> forall k :: 0 <= k < |gs| ==> SizeInRange(gs[k])
    ensures r.Some? ==> r.value < |gs| && !SizeInRange(gs[r.value])
                        && forall k :: 0 <= k < r.value ==> SizeInRange(gs[k])
  {
    if gs == [] then None
    else if !SizeInRange(gs[0]) then Some(0)
    else
      match FirstBadSize(gs[1..])
      case None => None
      case Some(j) => Some(j + 1)
  }

  /** The normalised groups, or the error that rejects the payload before any change. */
  function Normalize(payload: map<string, Json>): Result<seq<Group>, Error>
  {
    match GroupsOf(payload)
    case Err(e) => Err(e)
    case Ok(gs) =>
      if gs == [] then Err(EmptyPayload)
      else
        match FirstBadSize(gs)
        case Some(i) => Err(BatchSizeOutOfRange(|gs[i].records|))
        case None => Ok(gs)
  }

  /** The rows a successful parse keeps have their table's shape and meet the model's constraints. */
  lemma ParsedRowsWellFormed(t: Table, datos: seq<Json>, dc: DateCodec)
    requires ParseSpec(t, datos, dc).Ok?
    ensures var valid := ParseSpec(t, datos, dc).value.valid;
      AllOf(t, valid) && forall k :: 0 <= k < |valid| ==> MeetsConstraints(valid[k])
  {
    var os := Outcomes(t, datos, dc);
    var idx := ValidRowsInOrder(os);
    var valid := OkValues(os);
    forall k | 0 <= k < |valid| ensures RowOf(t, valid[k]) && MeetsConstraints(valid[k]) {
      assert os[idx[k]] == Ok(valid[k]);
      assert os[idx[k]] == OutcomeOf(t, datos[idx[k]], dc);
    }
  }

  /** The quality filter keeps a subsequence, so the kept rows keep their shape and constraints. */
  lemma AcceptedWellFormed(t: Table, rows: seq<Row>, depKeys: set<int>, jobKeys: set<int>)
    requires AllOf(t, rows)
    ensures var acc := Accepted(t, rows, depKeys, jobKeys);
      && AllOf(t, acc)
      && (forall k :: 0 <= k < |acc| ==> acc[k] in rows)
      && (forall k :: 0 <= k < |acc| ==> ReferencesExist(acc[k], depKeys, jobKeys))
  {
    if t == EmpleadosContratados {
      var idx := AcceptedIffReferencesExist(rows, depKeys, jobKeys);
    } else {
      forall k | 0 <= k < |rows| ensures ReferencesExist(rows[k], depKeys, jobKeys) {
        assert RowOf(t, rows[k]);
      }
    }
  }

  /** One group: parse, quality rules against the current store, upsert. */
  function ProcessGroup(db: Db, g: Group, dc: DateCodec): (Db, Result<GroupOutcome, Error>)
  {
    match TableOf(g.key)
    case None => (db, Err(UnsupportedTable))
    case Some(t) =>
      match ParseSpec(t, g.records, dc)
      case Err(e) => (db, Err(e))
      case Ok(p) =>
        ParsedRowsWellFormed(t, g.records, dc);
        var depKeys := db.departamentos.Keys;
        var jobKeys := db.trabajos.Keys;
        var acc := Accepted(t, p.valid, depKeys, jobKeys);
        var (db', u) := UpsertSpec(db, t, acc);
        match u
        case Err(e) => (db', Err(e))
        case Ok(n) =>
          (db', Ok(GroupOutcome(GroupReport(t, |g.records|, |acc|, n), p.errors, QualityErrors(t, p.valid, depKeys, jobKeys))))
  }

  /** One more group after a run: nothing more after a failure. */
  function Step(run: (Db, Result<Summary, Error>), g: Group, dc: DateCodec): (Db, Result<Summary, Error>)
  {
    if run.1.Err? then run
    else
      var (db', r) := ProcessGroup(run.0, g, dc);
      match r
      case Err(e) => (db', Err(e))
      case Ok(o) => (db', Ok(Summary(run.1.value.procesados + [o.report], run.1.value.errores + o.modelErrors + o.qualityErrors)))
  }

  /** The groups in order, stopping at the first failure with the store the earlier groups left. */
  function RunGroups(db: Db, gs: seq<Group>, dc: DateCodec): (Db, Result<Summary, Error>)
  {
    if gs == [] then (db, Ok(Summary([], [])))
    else Step(RunGroups(db, gs[..|gs| - 1], dc), gs[|gs| - 1], dc)
  }

  /** The whole request: the new store and the response or the error. */
  function IngestSpec(db: Db, payload: map<string, Json>, dc: DateCodec): (Db, Result<Summary, Error>)
  {
    match Normalize(payload)
    case Err(e) => (db, Err(e))
    case Ok(gs) => RunGroups(db, gs, dc)
  }

  // ---------------------------------------------------------------------------
  // Implementation

  /** Once a registry key holds a non-list, the later keys do not matter. */
  lemma {:induction false} NamedGroupsErrSticks(payload: map<string, Json>, k: nat, m: nat)
    requires k <= m <= |ValidTables|
    requires NamedGroups(payload, k).Err?
    ensures NamedGroups(payload, m) == NamedGroups(payload, k)
  {
    if k < m {
      NamedGroupsErrSticks(payload, k, m - 1);
    }
  }

  /** The normalisation and size check of `recibir_transacciones`. */
  method NormalizePayload(payload: map<string, Json>) returns (r: Result<seq<Group>, Error>)
    ensures r == Normalize(payload)
  {
    var grupos: seq<Group> := [];
    if "tabla" in payload && "registros" in payload {
      var registros := payload["registros"];
      if !registros.JList? {
        return Err(NotAList("registros"));
      }
      if !Hashable(payload["tabla"]) {
        return Err(Unhashable);
      }
      grupos := [Group(payload["tabla"], registros.items)];
    } else {
      var n := 0;
      while n < |ValidTables|
        invariant 0 <= n <= |ValidTables|
        invariant NamedGroups(payload, n) == Ok(grupos)
      {
        var name := TableName(ValidTables[n]);
        if name in payload {
          if !payload[name].JList? {
            NamedGroupsErrSticks(payload, n + 1, |ValidTables|);
            return Err(NotAList(name));
          }
          grupos := grupos + [Group(JStr(name), payload[name].items)];
        }
        n := n + 1;
      }
    }
    if grupos == [] {
      return Err(EmptyPayload);
    }
    var i := 0;
    while i < |grupos|
      invariant 0 <= i <= |grupos|
      invariant forall k :: 0 <= k < i ==> SizeInRange(grupos[k])
    {
      var size := |grupos[i].records|;
      if size < 1 || size > MaxBatch {
        assert FirstBadSize(grupos) == Some(i);
        return Err(BatchSizeOutOfRange(size));
      }
      i := i + 1;
    }
    r := Ok(grupos);
  }

  /** Running one more group extends the run by that group alone. */
  lemma RunGroupsSnoc(db: Db, gs: seq<Group>, dc: DateCodec, i: nat)
    requires i < |gs|
    ensures RunGroups(db, gs[..i + 1], dc) == Step(RunGroups(db, gs[..i], dc), gs[i], dc)
  {
    assert gs[..i + 1][..i] == gs[..i];
  }

  /** A failed run stays failed, with the same store, whatever groups follow. */
  lemma {:induction false} RunGroupsErrSticks(db: Db, gs: seq<Group>, dc: DateCodec, k: nat)
    requires k <= |gs| && RunGroups(db, gs[..k], dc).1.Err?
    ensures RunGroups(db, gs, dc) == RunGroups(db, gs[..k], dc)
  {
    if k == |gs| {
      assert gs[..k] == gs;
    } else {
      var n := |gs| - 1;
      assert gs[..n][..k] == gs[..k];
      RunGroupsErrSticks(db, gs[..n], dc, k);
    }
  }

  /** Step after a successful run, given the group's own outcome. */
  lemma StepOf(run: (Db, Result<Summary, Error>), g: Group, dc: DateCodec, db': Db, o: Result<GroupOutcome, Error>)
    requires run.1.Ok? && (db', o) == ProcessGroup(run.0, g, dc)
    ensures o.Err? ==> Step(run, g, dc) == (db', Err(o.error))
    ensures o.Ok? ==>
              Step(run, g, dc) == (db', Ok(Summary(run.1.value.procesados + [o.value.report],
                                                 run.1.value.errores + o.value.modelErrors + o.value.qualityErrors)))
  {
  }

  /** One group against the database: parse, quality rules, and the table's upsert. */
  method ProcessGroupOn(db: Database, g: Group, dc: DateCodec) returns (r: Result<GroupOutcome, Error>)
    modifies db
    ensures (db.State(), r) == ProcessGroup(old(db.State()), g, dc)
  {
    var parsed := ParseRecords(g.key, g.records, dc);
    if parsed.Err? {
      return Err(parsed.error);
    }
    var t := TableOf(g.key).value;
    ParsedRowsWellFormed(t, g.records, dc);
    var state := db.State();
    var accepted, errores := ApplyQualityRules(t, parsed.value.valid, state.departamentos.Keys, state.trabajos.Keys);
    AcceptedWellFormed(t, parsed.value.valid, state.departamentos.Keys, state.trabajos.Keys);
    var cantidad: Result<nat, Error>;
    match t {
      case Departamentos =>
        cantidad := db.UpsertDepartamentos(accepted);
      case Trabajos =>
        cantidad := db.UpsertTrabajos(accepted);
      case EmpleadosContratados =>
        cantidad := db.UpsertEmpleados(accepted);
    }
    if cantidad.Err? {
      return Err(cantidad.error);
    }
    r := Ok(GroupOutcome(GroupReport(t, |g.records|, |accepted|, cantidad.value), parsed.value.errors, errores));
  }

  /** `recibir_transacciones(payload)`. */
  method RecibirTransacciones(db: Database, payload: map<string, Json>, dc: DateCodec) returns (r: Result<Summary, Error>)
    modifies db
    ensures (db.State(), r) == IngestSpec(old(db.State()), payload, dc)
  {
    var grupos := NormalizePayload(payload);
    if grupos.Err? {
      return Err(grupos.error);
    }
    var gs := grupos.value;
    assert IngestSpec(old(db.State()), payload, dc) == RunGroups(old(db.State()), gs, dc);
    var procesados: seq<GroupReport> := [];
    var errores: seq<RecordError> := [];
    var i := 0;
    while i < |gs|
      invariant 0 <= i <= |gs|
      invariant RunGroups(old(db.State()), gs[..i], dc) == (db.State(), Ok(Summary(procesados, errores)))
    {
      RunGroupsSnoc(old(db.State()), gs, dc, i);
      ghost var run := (db.State(), Ok(Summary(procesados, errores)));
      var o := ProcessGroupOn(db, gs[i], dc);
      StepOf(run, gs[i], dc, db.State(), o);
      if o.Err? {
        RunGroupsErrSticks(old(db.State()), gs, dc, i + 1);
        return Err(o.error);
      }
      procesados := procesados + [o.value.report];
      errores := errores + o.value.modelErrors + o.value.qualityErrors;
      i := i + 1;
    }
    assert gs[..i] == gs;
    r := Ok(Summary(procesados, errores));
    assert (db.State(), r) == RunGroups(old(db.State()), gs, dc);
  }

  // ---------------------------------------------------------------------------
  // Properties of the request

  /** The keys of the groups, in order. */
  function GroupKeys(gs: seq<Group>): (ks: seq<Json>)
    ensures |ks| == |gs| && forall k :: 0 <= k < |gs| ==> ks[k] == gs[k].key
  {
    seq(|gs|, k requires 0 <= k < |gs| => gs[k].key)
  }

  /** A registry name that is present without a list rejects the payload. */
  predicate RegistryListsOk(payload: map<string, Json>, n: nat)
    requires n <= |ValidTables|
  {
    forall j :: 0 <= j < n && TableName(ValidTables[j]) in payload ==> payload[TableName(ValidTables[j])].JList?
  }

  /** The named groups succeed exactly when every present registry name holds a list. */
  lemma {:induction false} NamedGroupsOk(payload: map<string, Json>, n: nat)
    requires n <= |ValidTables|
    ensures NamedGroups(payload, n).Ok? <==> RegistryListsOk(payload, n)
  {
    if n > 0 {
      NamedGroupsOk(payload, n - 1);
      RegistryListsStep(payload, n);
    }
  }

  /**
   * When the named groups succeed, there is one group per present registry name, keyed by that
   * name and holding that list, in registry order.
   */
  lemma {:induction false} NamedGroupsShape(payload: map<string, Json>, n: nat)
    requires n <= |ValidTables|
    ensures NamedGroups(payload, n).Ok? ==> NamedShape(payload, NamedGroups(payload, n).value, n)
  {
    if n > 0 && NamedGroups(payload, n).Ok? {
      NamedGroupsShape(payload, n - 1);
      var name := TableName(ValidTables[n - 1]);
      var pre := NamedGroups(payload, n - 1).value;
      if name !in payload {
        assert NamedGroups(payload, n) == Ok(pre);
        NamedShapeSkip(payload, pre, n);
      } else {
        assert NamedGroups(payload, n) == Ok(pre + [Group(JStr(name), payload[name].items)]);
        NamedShapeSnoc(payload, pre, n);
      }
    }
  }

  /** The registry lists are well formed up to `n` when they are up to `n - 1` and name `n - 1` is. */
  lemma RegistryListsStep(payload: map<string, Json>, n: nat)
    requires 0 < n <= |ValidTables|
    ensures var name := TableName(ValidTables[n - 1]);
      RegistryListsOk(payload, n) <==> RegistryListsOk(payload, n - 1) && (name in payload ==> payload[name].JList?)
  {
  }

  /**
   * The shape of the groups built from the first `n` registry names: at most one per name, each
   * keyed by a table name present in the payload and holding that key's list, and every one of
   * those names present exactly when its group is.
   */
  ghost predicate NamedShape(payload: map<string, Json>, gs: seq<Group>, n: nat)
    requires n <= |ValidTables|
  {
    && |gs| <= n
    && (forall k :: 0 <= k < |gs| ==>
          gs[k].key.JStr? && TableNamed(gs[k].key.s).Some? && gs[k].key.s in payload
          && payload[gs[k].key.s] == JList(gs[k].records))
    && (forall j :: 0 <= j < n ==>
          (TableName(ValidTables[j]) in payload <==> JStr(TableName(ValidTables[j])) in GroupKeys(gs)))
    && GroupKeys(gs) == PresentKeys(payload, n)
  }

  /** The keys of the first `n` registry names present in the payload, in registry order. */
  function PresentKeys(payload: map<string, Json>, n: nat): seq<Json>
    requires n <= |ValidTables|
  {
    if n == 0 then []
    else
      var name := TableName(ValidTables[n - 1]);
      PresentKeys(payload, n - 1) + (if name in payload then [JStr(name)] else [])
  }

  /** The registry position of the table a key names; a key naming no table ranks last. */
  function KeyRank(k: Json): nat
  {
    if k.JStr? && TableNamed(k.s).Some? then Position(TableNamed(k.s).value) else |ValidTables|
  }

  /**
   * The present keys name registry tables in strictly increasing registry position: each table
   * at most once, departments before jobs before employees.
   */
  lemma {:induction false} PresentKeysOrdered(payload: map<string, Json>, n: nat)
    requires n <= |ValidTables|
    ensures forall k :: 0 <= k < |PresentKeys(payload, n)| ==>
      PresentKeys(payload, n)[k].JStr? && PresentKeys(payload, n)[k].s in payload && KeyRank(PresentKeys(payload, n)[k]) < n
    ensures forall i, j :: 0 <= i < j < |PresentKeys(payload, n)| ==>
      KeyRank(PresentKeys(payload, n)[i]) < KeyRank(PresentKeys(payload, n)[j])
  {
    if n > 0 {
      PresentKeysOrdered(payload, n - 1);
      var pre := PresentKeys(payload, n - 1);
      var name := TableName(ValidTables[n - 1]);
      if name in payload {
        var ks := pre + [JStr(name)];
        assert PresentKeys(payload, n) == ks;
        assert TableNamed(name) == Some(ValidTables[n - 1]);
        assert KeyRank(JStr(name)) == n - 1;
        forall k | 0 <= k < |ks| ensures ks[k].JStr? && ks[k].s in payload && KeyRank(ks[k]) < n {
          if k < |pre| {
            assert ks[k] == pre[k];
          } else {
            assert ks[k] == JStr(name);
          }
        }
        forall i, j | 0 <= i < j < |ks| ensures KeyRank(ks[i]) < KeyRank(ks[j]) {
          assert ks[i] == pre[i];
          if j < |pre| { assert ks[j] == pre[j]; }
        }
      } else {
        assert PresentKeys(payload, n) == pre;
      }
    }
  }

  /** A registry name that is absent adds no group and keeps the shape. */
  lemma NamedShapeSkip(payload: map<string, Json>, pre: seq<Group>, n: nat)
    requires 0 < n <= |ValidTables| && TableName(ValidTables[n - 1]) !in payload
    requires NamedShape(payload, pre, n - 1)
    ensures NamedShape(payload, pre, n)
  {
    var name := TableName(ValidTables[n - 1]);
    forall k | 0 <= k < |pre| ensures GroupKeys(pre)[k] != JStr(name) {
      assert pre[k].key.s in payload;
    }
    assert PresentKeys(payload, n) == PresentKeys(payload, n - 1) + [];
  }

  /** A registry name holding a list adds its group at the end and keeps the shape. */
  lemma NamedShapeSnoc(payload: map<string, Json>, pre: seq<Group>, n: nat)
    requires 0 < n <= |ValidTables|
    requires TableName(ValidTables[n - 1]) in payload && payload[TableName(ValidTables[n - 1])].JList?
    requires NamedShape(payload, pre, n - 1)
    ensures var name := TableName(ValidTables[n - 1]);
      NamedShape(payload, pre + [Group(JStr(name), payload[name].items)], n)
  {
    var name := TableName(ValidTables[n - 1]);
    var g := Group(JStr(name), payload[name].items);
    var gs := pre + [g];
    assert TableNamed(name) == Some(ValidTables[n - 1]);
    assert GroupKeys(gs) == GroupKeys(pre) + [JStr(name)];
    assert PresentKeys(payload, n) == PresentKeys(payload, n - 1) + [JStr(name)];
    forall k | 0 <= k < |gs|
      ensures gs[k].key.JStr? && TableNamed(gs[k].key.s).Some? && gs[k].key.s in payload
              && payload[gs[k].key.s] == JList(gs[k].records)
    {
      if k < |pre| { assert gs[k] == pre[k]; }
    }
    forall j | 0 <= j < n - 1 ensures JStr(TableName(ValidTables[j])) != JStr(name) {
      assert ValidTables[j] != ValidTables[n - 1];
    }
  }

  /**
   * A normalised payload has one to three groups, each of 1..1000 records. An explicit
   * `tabla`/`registros` pair gives exactly that group; otherwise there is one group per table
   * name present, holding that key's list, in registry order (departments, then jobs, then
   * employees, each at most once). A payload whose groups are not all of 1..1000
   * records is rejected.
   */
  lemma NormalizeShape(payload: map<string, Json>)
    ensures Normalize(payload).Ok? ==>
      var gs := Normalize(payload).value;
      && 1 <= |gs| <= |ValidTables|
      && (forall k :: 0 <= k < |gs| ==> 1 <= |gs[k].records| <= MaxBatch)
      && (SingleMode(payload) ==> gs == [Group(payload["tabla"], payload["registros"].items)])
      && (!SingleMode(payload) ==> KeyedGroups(payload, gs))
    ensures GroupsOf(payload).Ok? ==>
      (Normalize(payload).Ok? <==> GroupsOf(payload).value != [] && forall g :: g in GroupsOf(payload).value ==> SizeInRange(g))
  {
    NamedGroupsOk(payload, |ValidTables|);
    NormalizeKeyed(payload);
  }

  /**
   * The groups of a payload without an explicit `tabla`/`registros` pair: each keyed by a table
   * name present in the payload and holding that key's list, one for every table name present,
   * and their keys the present names in registry order, so each table at most once and
   * departments before jobs before employees.
   */
  ghost predicate KeyedGroups(payload: map<string, Json>, gs: seq<Group>)
  {
    && |gs| <= |ValidTables|
    && (forall k :: 0 <= k < |gs| ==>
          gs[k].key.JStr? && TableNamed(gs[k].key.s).Some? && gs[k].key.s in payload
          && payload[gs[k].key.s] == JList(gs[k].records))
    && (forall t :: TableName(t) in payload <==> JStr(TableName(t)) in GroupKeys(gs))
    && GroupKeys(gs) == PresentKeys(payload, |ValidTables|)
    && (forall i, j :: 0 <= i < j < |gs| ==> KeyRank(gs[i].key) < KeyRank(gs[j].key))
  }

  /** The keyed form of a normalised payload: the groups of the present names, in registry order. */
  lemma NormalizeKeyed(payload: map<string, Json>)
    ensures Normalize(payload).Ok? && !SingleMode(payload) ==> KeyedGroups(payload, Normalize(payload).value)
  {
    NamedGroupsShape(payload, |ValidTables|);
    PresentKeysOrdered(payload, |ValidTables|);
    if Normalize(payload).Ok? && !SingleMode(payload) {
      var gs := Normalize(payload).value;
      forall t ensures TableName(t) in payload <==> JStr(TableName(t)) in GroupKeys(gs) {
        match t
        case Departamentos => assert ValidTables[0] == t;
        case Trabajos => assert ValidTables[1] == t;
        case EmpleadosContratados => assert ValidTables[2] == t;
      }
      forall i, j | 0 <= i < j < |gs| ensures KeyRank(gs[i].key) < KeyRank(gs[j].key) {
        assert gs[i].key == GroupKeys(gs)[i] && gs[j].key == GroupKeys(gs)[j];
      }
    }
  }

  /** A group that fails commits nothing. */
  lemma ProcessGroupFailsClean(db: Db, g: Group, dc: DateCodec)
    ensures ProcessGroup(db, g, dc).1.Err? ==> ProcessGroup(db, g, dc).0 == db
  {
  }

  /** Each group keeps the store's invariant. */
  lemma ProcessGroupPreservesValid(db: Db, g: Group, dc: DateCodec)
    requires Valid(db)
    ensures Valid(ProcessGroup(db, g, dc).0)
  {
    var table := TableOf(g.key);
    if table.Some? {
      var t := table.value;
      var parsed := ParseSpec(t, g.records, dc);
      if parsed.Ok? {
        var valid := parsed.value.valid;
        ParsedRowsWellFormed(t, g.records, dc);
        var acc := Accepted(t, valid, db.departamentos.Keys, db.trabajos.Keys);
        AcceptedWellFormed(t, valid, db.departamentos.Keys, db.trabajos.Keys);
        forall k | 0 <= k < |acc| ensures MeetsConstraints(acc[k]) {
          var j :| 0 <= j < |valid| && valid[j] == acc[k];
        }
        UpsertPreservesValid(db, t, acc);
      }
    }
  }

  /**
   * A request never leaves the store invalid: in particular no stored employee references a
   * missing department or job, whatever the payload.
   */
  lemma {:induction false} IngestPreservesValid(db: Db, payload: map<string, Json>, dc: DateCodec)
    requires Valid(db)
    ensures Valid(IngestSpec(db, payload, dc).0)
  {
    if Normalize(payload).Ok? {
      RunGroupsPreservesValid(db, Normalize(payload).value, dc);
    }
  }

  lemma {:induction false} RunGroupsPreservesValid(db: Db, gs: seq<Group>, dc: DateCodec)
    requires Valid(db)
    ensures Valid(RunGroups(db, gs, dc).0)
  {
    if gs != [] {
      var n := |gs| - 1;
      RunGroupsPreservesValid(db, gs[..n], dc);
      var run := RunGroups(db, gs[..n], dc);
      if run.1.Ok? {
        ProcessGroupPreservesValid(run.0, gs[n], dc);
      }
    }
  }

  /** The group at which a failed run stopped: the groups before it succeeded and are kept. */
  lemma {:induction false} RunGroupsFailure(db: Db, gs: seq<Group>, dc: DateCodec) returns (k: nat)
    requires RunGroups(db, gs, dc).1.Err?
    ensures k < |gs|
    ensures var before := RunGroups(db, gs[..k], dc);
      && before.1.Ok?
      && ProcessGroup(before.0, gs[k], dc).1.Err?
      && RunGroups(db, gs, dc).1.error == ProcessGroup(before.0, gs[k], dc).1.error
      && RunGroups(db, gs, dc).0 == before.0
  {
    var n := |gs| - 1;
    var pre := gs[..n];
    if RunGroups(db, pre, dc).1.Err? {
      k := RunGroupsFailure(db, pre, dc);
      assert pre[..k] == gs[..k];
    } else {
      k := n;
      ProcessGroupFailsClean(RunGroups(db, pre, dc).0, gs[n], dc);
    }
  }

  /**
   * A failed request leaves the store as it was when the payload is rejected, and otherwise as
   * the groups before the failing one left it (earlier commits are not undone, the failing group
   * commits nothing).
   */
  lemma FailedRequestKeepsEarlierGroups(db: Db, payload: map<string, Json>, dc: DateCodec) returns (k: nat)
    requires IngestSpec(db, payload, dc).1.Err?
    ensures Normalize(payload).Err? ==> IngestSpec(db, payload, dc).0 == db
    ensures Normalize(payload).Ok? ==>
      var gs := Normalize(payload).value;
      && k < |gs|
      && RunGroups(db, gs[..k], dc).1.Ok?
      && ProcessGroup(RunGroups(db, gs[..k], dc).0, gs[k], dc).1.Err?
      && IngestSpec(db, payload, dc).0 == RunGroups(db, gs[..k], dc).0
  {
    k := 0;
    if Normalize(payload).Ok? {
      k := RunGroupsFailure(db, Normalize(payload).value, dc);
    }
  }

  /** The records of a report that were not upserted. */
  function Rejected(ps: seq<GroupReport>): int
  {
    if ps == [] then 0
    else Rejected(ps[..|ps| - 1]) + ps[|ps| - 1].recibidos - ps[|ps| - 1].validos
  }

  /** Well-formed counts of one group's report. */
  predicate ReportOf(rep: GroupReport, g: Group)
  {
    && TableOf(g.key) == Some(rep.tabla)
    && rep.recibidos == |g.records|
    && rep.validos <= rep.recibidos
    && rep.upsert == rep.validos
  }

  /**
   * A successful group reports its table, the records received, the records kept (all of them
   * upserted), and each record it did not keep by one or two errors.
   */
  lemma GroupAccounts(db: Db, g: Group, dc: DateCodec)
    requires ProcessGroup(db, g, dc).1.Ok?
    ensures var o := ProcessGroup(db, g, dc).1.value;
      && ReportOf(o.report, g)
      && |o.modelErrors| == o.report.recibidos - |ParseSpec(o.report.tabla, g.records, dc).value.valid|
      && var errors := |o.modelErrors| + |o.qualityErrors|;
         o.report.recibidos - o.report.validos <= errors <= 2 * (o.report.recibidos - o.report.validos)
  {
    var t := TableOf(g.key).value;
    var os := Outcomes(t, g.records, dc);
    var valid := OkValues(os);
    ParseCounts(t, os);
    ParsedRowsWellFormed(t, g.records, dc);
    var depKeys, jobKeys := db.departamentos.Keys, db.trabajos.Keys;
    if t == EmpleadosContratados {
      OneErrorPerMissingKey(valid, depKeys, jobKeys);
      RejectedReported(valid, depKeys, jobKeys);
    }
  }

  /**
   * A successful run has one report per group, each consistent with its group, and every record
   * not upserted is reported by one or two errors.
   */
  lemma {:induction false} RunGroupsAccounts(db: Db, gs: seq<Group>, dc: DateCodec)
    requires RunGroups(db, gs, dc).1.Ok?
    ensures var s := RunGroups(db, gs, dc).1.value;
      && |s.procesados| == |gs|
      && (forall k :: 0 <= k < |gs| ==> ReportOf(s.procesados[k], gs[k]))
      && Rejected(s.procesados) <= |s.errores| <= 2 * Rejected(s.procesados)
  {
    if gs != [] {
      var n := |gs| - 1;
      var run := RunGroups(db, gs[..n], dc);
      RunGroupsAccounts(db, gs[..n], dc);
      GroupAccounts(run.0, gs[n], dc);
      SummarySnoc(run.1.value, ProcessGroup(run.0, gs[n], dc).1.value, gs);
    }
  }

  /** Appending one well-accounted group to a well-accounted summary keeps it well accounted. */
  lemma SummarySnoc(prev: Summary, o: GroupOutcome, gs: seq<Group>)
    requires gs != [] && |prev.procesados| == |gs| - 1
    requires forall k :: 0 <= k < |gs| - 1 ==> ReportOf(prev.procesados[k], gs[k])
    requires Rejected(prev.procesados) <= |prev.errores| <= 2 * Rejected(prev.procesados)
    requires ReportOf(o.report, gs[|gs| - 1])
    requires var errors := |o.modelErrors| + |o.qualityErrors|;
      o.report.recibidos - o.report.validos <= errors <= 2 * (o.report.recibidos - o.report.validos)
    ensures var s := Summary(prev.procesados + [o.report], prev.errores + o.modelErrors + o.qualityErrors);
      && |s.procesados| == |gs|
      && (forall k :: 0 <= k < |gs| ==> ReportOf(s.procesados[k], gs[k]))
      && Rejected(s.procesados) <= |s.errores| <= 2 * Rejected(s.procesados)
  {
    var ps := prev.procesados + [o.report];
    assert ps[..|ps| - 1] == prev.procesados;
  }

  /**
   * `recibir_transacciones` answers with one report per normalised group, each group of 1..1000
   * records, and the `errores` list covers every record that was not upserted.
   */
  lemma IngestAccounts(db: Db, payload: map<string, Json>, dc: DateCodec)
    requires IngestSpec(db, payload, dc).1.Ok?
    ensures Normalize(payload).Ok?
    ensures var gs := Normalize(payload).value;
      var s := IngestSpec(db, payload, dc).1.value;
      && |s.procesados| == |gs|
      && (forall k :: 0 <= k < |gs| ==> ReportOf(s.procesados[k], gs[k]) && 1 <= s.procesados[k].recibidos <= MaxBatch)
      && Rejected(s.procesados) <= |s.errores| <= 2 * Rejected(s.procesados)
  {
    NormalizeShape(payload);
    RunGroupsAccounts(db, Normalize(payload).value, dc);
  }

  /** The values of a row fit 32-bit integers. */
  predicate IntsFit(r: Row)
  {
    && InInt32(r.id)
    && (r.Employee? ==>
          (r.idDepartamento.Some? ==> InInt32(r.idDepartamento.value))
          && (r.idTrabajo.Some? ==> InInt32(r.idTrabajo.value)))
  }

  /** The text of a row has no NUL character. */
  predicate NulFree(r: Row)
  {
    match r
    case Department(_, name) => '\0' !in name
    case Job(_, title) => '\0' !in title
    case Employee(_, nombre, _, _, _) => nombre.Some? ==> '\0' !in nombre.value
  }

  /** A validated row fits its columns exactly when its integers fit 32 bits and its text has no NUL. */
  lemma ValidatedColumnsFit(r: Row)
    requires MeetsConstraints(r)
    ensures ColumnsFit(r) <==> IntsFit(r) && NulFree(r)
  {
  }

  /**
   * The quality rules mean a group's upsert never fails on a foreign key: it fails only when a
   * kept row does not fit its columns (by the lemma above: an integer beyond 32 bits or a NUL
   * character) or when a key repeats within a page.
   */
  lemma GroupUpsertFailure(db: Db, g: Group, dc: DateCodec)
    requires TableOf(g.key).Some? && ParseSpec(TableOf(g.key).value, g.records, dc).Ok?
    ensures var t := TableOf(g.key).value;
      var acc := Accepted(t, ParseSpec(t, g.records, dc).value.valid, db.departamentos.Keys, db.trabajos.Keys);
      && (forall k :: 0 <= k < |acc| ==> MeetsConstraints(acc[k]))
      && (ProcessGroup(db, g, dc).1.Err? <==>
            (exists k :: 0 <= k < |acc| && !ColumnsFit(acc[k])) || DuplicateInPage(acc))
  {
    var t := TableOf(g.key).value;
    var valid := ParseSpec(t, g.records, dc).value.valid;
    ParsedRowsWellFormed(t, g.records, dc);
    AcceptedWellFormed(t, valid, db.departamentos.Keys, db.trabajos.Keys);
    var acc := Accepted(t, valid, db.departamentos.Keys, db.trabajos.Keys);
    forall k | 0 <= k < |acc| ensures MeetsConstraints(acc[k]) && ReferencesStored(db, acc[k]) {
      var j :| 0 <= j < |valid| && valid[j] == acc[k];
    }
  }
}
