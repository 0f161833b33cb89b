/**
 * The relational store and its two writers: the upserts (`upsert_departamentos`,
 * `upsert_trabajos`, `upsert_empleados`: INSERT ... ON CONFLICT (id) DO UPDATE, sent by
 * `execute_values` in pages of 1090 rows and committed once, rolled back on any error) and
 * the full-table DELETE of the guarded clear.
 */
module Store {
  import opened Wrappers
  import opened Domain
  import opened Records
  import opened Quality

  const Int32Min: int := -2147483648
  const Int32Max: int := 2147483647

  /** Rows per INSERT statement built by `execute_values(..., page_size=1090)`. */
  const PageSize: nat := 1090

  /** The three tables, each keyed by primary key. */
  datatype Db = Db(departamentos: map<int, Row>, trabajos: map<int, Row>, empleados: map<int, Row>)
  {
    function Rows(t: Table): map<int, Row>
    {
      match t
      case Departamentos => departamentos
      case Trabajos => trabajos
      case EmpleadosContratados => empleados
    }

    function WithRows(t: Table, m: map<int, Row>): (db: Db)
      ensures db.Rows(t) == m
      ensures forall u :: u != t ==> db.Rows(u) == Rows(u)
    {
      match t
      case Departamentos => this.(departamentos := m)
      case Trabajos => this.(trabajos := m)
      case EmpleadosContratados => this.(empleados := m)
    }
  }

  predicate InInt32(n: int)
  {
    Int32Min <= n <= Int32Max
  }

  /** Text PostgreSQL accepts: bounded length and no NUL character. */
  predicate TextFits(s: string, maxLen: nat)
  {
    |s| <= maxLen && '\0' !in s
  }

  /** The row's values fit the column types: INTEGER ids and keys, VARCHAR(50/200/100) text. */
  predicate ColumnsFit(r: Row)
  {
    InInt32(r.id) &&
    match r
    case Department(_, name) => TextFits(name, 50)
    case Job(_, title) => TextFits(title, 200)
    case Employee(_, nombre, _, dep, job) =>
      && (nombre.Some? ==> TextFits(nombre.value, 100))
      && (dep.Some? ==> InInt32(dep.value))
      && (job.Some? ==> InInt32(job.value))
  }

  /** The REFERENCES constraints of the employee table hold for the row in `db`. */
  predicate ReferencesStored(db: Db, r: Row)
  {
    ReferencesExist(r, db.departamentos.Keys, db.trabajos.Keys)
  }

  /** Two rows of one INSERT statement share a key (PostgreSQL refuses to update a row twice). */
  predicate DuplicateInPage(rows: seq<Row>)
  {
    exists i, j :: 0 <= i < j < |rows| && i / PageSize == j / PageSize && rows[i].id == rows[j].id
  }

  /** The statement and its commit succeed. */
  predicate Admissible(db: Db, rows: seq<Row>)
  {
    && (forall k :: 0 <= k < |rows| ==> ColumnsFit(rows[k]) && ReferencesStored(db, rows[k]))
    && !DuplicateInPage(rows)
  }

  /** Insert-or-overwrite, row by row: the last row with a key wins. */
  function Overwrite(m: map<int, Row>, rows: seq<Row>): map<int, Row>
  {
    if rows == [] then m
    else
      var n := |rows| - 1;
      Overwrite(m, rows[..n])[rows[n].id := rows[n]]
  }

  /** The keys of a batch. */
  function Ids(rows: seq<Row>): set<int>
  {
    set k | 0 <= k < |rows| :: rows[k].id
  }

  /** The upsert of `rows` into table `t`: the new store and the count returned. */
  function UpsertSpec(db: Db, t: Table, rows: seq<Row>): (Db, Result<nat, Error>)
  {
    if rows == [] then (db, Ok(0))
    else if Admissible(db, rows) then (db.WithRows(t, Overwrite(db.Rows(t), rows)), Ok(|rows|))
    else (db, Err(UpsertFailed(t)))
  }

  /** The clear: every row deleted, unless a stored employee still references the table. */
  function DeleteSpec(db: Db, t: Table): (Db, Result<nat, Error>)
  {
    if Referenced(db, t) then (db, Err(DeleteFailed(t)))
    else (db.WithRows(t, map[]), Ok(|db.Rows(t)|))
  }

  /** Some stored employee references a stored row of `t` (so DELETE violates a REFERENCES constraint). */
  predicate Referenced(db: Db, t: Table)
  {
    match t
    case Departamentos =>
      exists k :: k in db.empleados && db.empleados[k].Employee? && db.empleados[k].idDepartamento.Some?
        && db.empleados[k].idDepartamento.value in db.departamentos
    case Trabajos =>
      exists k :: k in db.empleados && db.empleados[k].Employee? && db.empleados[k].idTrabajo.Some?
        && db.empleados[k].idTrabajo.value in db.trabajos
    case EmpleadosContratados => false
  }

  /** Rows sit under their own key, have their table's shape, meet the record constraints and fit their columns. */
  ghost predicate WellKeyed(t: Table, m: map<int, Row>)
  {
    forall k :: k in m ==> m[k].id == k && RowOf(t, m[k]) && MeetsConstraints(m[k]) && ColumnsFit(m[k])
  }

  /** The store's invariant: well-keyed tables and no dangling employee reference. */
  ghost predicate Valid(db: Db)
  {
    && WellKeyed(Departamentos, db.departamentos)
    && WellKeyed(Trabajos, db.trabajos)
    && WellKeyed(EmpleadosContratados, db.empleados)
    && (forall k :: k in db.empleados ==> ReferencesStored(db, db.empleados[k]))
  }

  // ---------------------------------------------------------------------------
  // Properties of the upsert

  /** The keys of a batch with one more row. */
  lemma IdsSnoc(rows: seq<Row>)
    requires rows != []
    ensures Ids(rows) == Ids(rows[..|rows| - 1]) + {rows[|rows| - 1].id}
  {
    var n := |rows| - 1;
    var pre := rows[..n];
    forall x | x in Ids(rows) ensures x in Ids(pre) + {rows[n].id} {
      var k :| 0 <= k < |rows| && rows[k].id == x;
      if k < n {
        assert pre[k].id == x;
      }
    }
    forall x | x in Ids(pre) ensures x in Ids(rows) {
      var k :| 0 <= k < |pre| && pre[k].id == x;
      assert rows[k].id == x;
    }
  }

  /**
   * After overwriting, the keys are the old keys plus the batch's, and a key not in the batch
   * keeps its row.
   */
  lemma {:induction false} OverwriteKeys(m: map<int, Row>, rows: seq<Row>)
    ensures Overwrite(m, rows).Keys == m.Keys + Ids(rows)
    ensures forall k :: k in m && k !in Ids(rows) ==> Overwrite(m, rows)[k] == m[k]
  {
    if rows != [] {
      OverwriteKeys(m, rows[..|rows| - 1]);
      IdsSnoc(rows);
    }
  }

  /** A key of the batch holds the last row submitted with it. */
  lemma {:induction false} OverwriteLast(m: map<int, Row>, rows: seq<Row>, i: nat)
    requires i < |rows|
    requires forall j :: i < j < |rows| ==> rows[j].id != rows[i].id
    ensures rows[i].id in Overwrite(m, rows) && Overwrite(m, rows)[rows[i].id] == rows[i]
  {
    var n := |rows| - 1;
    if i < n {
      var pre := rows[..n];
      assert rows[n].id != rows[i].id;
      assert pre[i] == rows[i];
      assert forall j :: i < j < |pre| ==> pre[j] == rows[j];
      OverwriteLast(m, pre, i);
    }
  }

  /** The combination of `OverwriteKeys` and `OverwriteLast`. */
  lemma OverwriteAt(m: map<int, Row>, rows: seq<Row>)
    ensures Overwrite(m, rows).Keys == m.Keys + Ids(rows)
    ensures forall k :: k in m && k !in Ids(rows) ==> Overwrite(m, rows)[k] == m[k]
    ensures forall i :: 0 <= i < |rows| && (forall j :: i < j < |rows| ==> rows[j].id != rows[i].id) ==>
              Overwrite(m, rows)[rows[i].id] == rows[i]
  {
    OverwriteKeys(m, rows);
    forall i | 0 <= i < |rows| && (forall j :: i < j < |rows| ==> rows[j].id != rows[i].id)
      ensures Overwrite(m, rows)[rows[i].id] == rows[i]
    {
      OverwriteLast(m, rows, i);
    }
  }

  /** Overwriting with the same batch twice gives the same table as once. */
  lemma OverwriteIdempotent(m: map<int, Row>, rows: seq<Row>)
    ensures Overwrite(Overwrite(m, rows), rows) == Overwrite(m, rows)
  {
    var once := Overwrite(m, rows);
    var twice := Overwrite(once, rows);
    OverwriteAt(m, rows);
    OverwriteAt(once, rows);
    forall k | k in twice ensures k in once && twice[k] == once[k] {
      if k in Ids(rows) {
        var i := LastIndexOf(rows, k);
        assert twice[rows[i].id] == rows[i];
      }
    }
  }

  /** The position of the last row with key `k`. */
  lemma LastIndexOf(rows: seq<Row>, k: int) returns (i: nat)
    requires k in Ids(rows)
    ensures i < |rows| && rows[i].id == k
    ensures forall j :: i < j < |rows| ==> rows[j].id != k
  {
    var n := |rows| - 1;
    if rows[n].id == k {
      i := n;
    } else {
      var pre := rows[..n];
      assert k in Ids(pre) by {
        var j :| 0 <= j < |rows| && rows[j].id == k;
        assert pre[j] == rows[j];
      }
      i := LastIndexOf(pre, k);
      assert pre[i] == rows[i];
    }
  }

  /**
   * A successful upsert returns the batch size, maps every submitted key to the row submitted
   * last with it (to exactly that row when the batch has no repeated key), leaves other keys and
   * the other tables as they were, and an empty batch changes nothing and returns 0.
   */
  lemma UpsertEffect(db: Db, t: Table, rows: seq<Row>)
    ensures rows == [] ==> UpsertSpec(db, t, rows) == (db, Ok(0))
    ensures var (db', r) := UpsertSpec(db, t, rows);
      && (r.Ok? ==> r.value == |rows|)
      && (r.Err? ==> db' == db)
      && (forall u :: u != t ==> db'.Rows(u) == db.Rows(u))
      && db'.Rows(t).Keys == db.Rows(t).Keys + (if r.Ok? then Ids(rows) else {})
      && (forall k :: k in db.Rows(t) && k !in Ids(rows) ==> db'.Rows(t)[k] == db.Rows(t)[k])
      && (r.Ok? ==> forall i :: 0 <= i < |rows| && (forall j :: i < j < |rows| ==> rows[j].id != rows[i].id) ==>
            db'.Rows(t)[rows[i].id] == rows[i])
  {
    OverwriteAt(db.Rows(t), rows);
  }

  /** The upsert fails when any value does not fit its column or any key repeats within a page. */
  lemma UpsertFailsIff(db: Db, t: Table, rows: seq<Row>)
    requires rows != []
    ensures UpsertSpec(db, t, rows).1.Err? <==>
      (exists k :: 0 <= k < |rows| && !(ColumnsFit(rows[k]) && ReferencesStored(db, rows[k])))
      || DuplicateInPage(rows)
  {
  }

  /** Within one page (at most 1090 rows, so every ingested group) any repeated key fails the upsert. */
  lemma SinglePageDuplicates(rows: seq<Row>)
    requires |rows| <= PageSize
    ensures DuplicateInPage(rows) <==> exists i, j :: 0 <= i < j < |rows| && rows[i].id == rows[j].id
  {
    if exists i, j :: 0 <= i < j < |rows| && rows[i].id == rows[j].id {
      var i, j :| 0 <= i < j < |rows| && rows[i].id == rows[j].id;
      assert i / PageSize == 0 && j / PageSize == 0;
    }
  }

  /**
   * Submitting the same batch twice leaves the store as submitting it once, and the repeat
   * answers as the first submission did: the same count, or the same failure.
   */
  lemma UpsertTwice(db: Db, t: Table, rows: seq<Row>)
    requires AllOf(t, rows)
    ensures var once := UpsertSpec(db, t, rows).0;
      UpsertSpec(once, t, rows).0 == once
    ensures UpsertSpec(UpsertSpec(db, t, rows).0, t, rows).1 == UpsertSpec(db, t, rows).1
  {
    var (once, r) := UpsertSpec(db, t, rows);
    if r.Ok? && rows != [] {
      assert once.departamentos.Keys >= db.departamentos.Keys && once.trabajos.Keys >= db.trabajos.Keys by {
        OverwriteAt(db.Rows(t), rows);
      }
      assert forall k :: 0 <= k < |rows| ==> ReferencesStored(once, rows[k]);
      assert Admissible(once, rows);
      OverwriteIdempotent(db.Rows(t), rows);
    }
  }

  /** The upsert keeps the store's invariant: in particular it never stores a dangling reference. */
  lemma UpsertPreservesValid(db: Db, t: Table, rows: seq<Row>)
    requires Valid(db) && AllOf(t, rows)
    requires forall k :: 0 <= k < |rows| ==> MeetsConstraints(rows[k])
    ensures Valid(UpsertSpec(db, t, rows).0)
  {
    var (db', r) := UpsertSpec(db, t, rows);
    if r.Ok? && rows != [] {
      var m := Overwrite(db.Rows(t), rows);
      OverwriteAt(db.Rows(t), rows);
      assert WellKeyed(t, m) by {
        forall k | k in m ensures m[k].id == k && RowOf(t, m[k]) && MeetsConstraints(m[k]) && ColumnsFit(m[k]) {
          if k in Ids(rows) {
            var i := LastIndexOf(rows, k);
            assert m[rows[i].id] == rows[i];
          }
        }
      }
      assert db'.departamentos.Keys >= db.departamentos.Keys;
      assert db'.trabajos.Keys >= db.trabajos.Keys;
      forall k | k in db'.empleados ensures ReferencesStored(db', db'.empleados[k]) {
        if t == EmpleadosContratados && k in Ids(rows) {
          var i := LastIndexOf(rows, k);
          assert m[rows[i].id] == rows[i];
          assert ReferencesStored(db, rows[i]);
        } else {
          assert ReferencesStored(db, db.empleados[k]);
        }
      }
    }
  }

  /** The clear keeps the store's invariant. */
  lemma DeletePreservesValid(db: Db, t: Table)
    requires Valid(db)
    ensures Valid(DeleteSpec(db, t).0)
  {
    var (db', r) := DeleteSpec(db, t);
    if r.Ok? {
      match t
      case Departamentos =>
        forall k | k in db'.empleados ensures ReferencesStored(db', db'.empleados[k]) {
          var e := db.empleados[k];
          assert ReferencesStored(db, e);
          assert e.Employee? ==> e.idDepartamento.None?;
        }
      case Trabajos =>
        forall k | k in db'.empleados ensures ReferencesStored(db', db'.empleados[k]) {
          var e := db.empleados[k];
          assert ReferencesStored(db, e);
          assert e.Employee? ==> e.idTrabajo.None?;
        }
      case EmpleadosContratados =>
    }
  }

  /** The database connection's view of the three tables, changed only by committed statements. */
  class Database {
    var departamentos: map<int, Row>
    var trabajos: map<int, Row>
    var empleados: map<int, Row>

    function State(): Db
      reads this
    {
      Db(departamentos, trabajos, empleados)
    }

    constructor (initial: Db)
      ensures State() == initial
    {
      departamentos, trabajos, empleados := initial.departamentos, initial.trabajos, initial.empleados;
    }

    /** Replaces one table's committed contents. */
    method Commit(t: Table, m: map<int, Row>)
      modifies this
      ensures State() == old(State()).WithRows(t, m)
    {
      match t
      case Departamentos => departamentos := m;
      case Trabajos => trabajos := m;
      case EmpleadosContratados => empleados := m;
    }

    /**
     * The shared body of the three upserts: nothing is committed for an empty batch or a
     * statement that fails (rollback); otherwise the staged table is committed.
     */
    method Upsert(t: Table, registros: seq<Row>) returns (r: Result<nat, Error>)
      requires AllOf(t, registros)
      modifies this
      ensures (State(), r) == UpsertSpec(old(State()), t, registros)
    {
      if registros == [] {
        return Ok(0);
      }
      var ok, staged := Stage(State(), t, registros);
      if !ok {
        return Err(UpsertFailed(t));
      }
      Commit(t, staged);
      r := Ok(|registros|);
    }

    /** `upsert_departamentos`. */
    method UpsertDepartamentos(registros: seq<Row>) returns (r: Result<nat, Error>)
      requires AllOf(Departamentos, registros)
      modifies this
      ensures (State(), r) == UpsertSpec(old(State()), Departamentos, registros)
    {
      r := Upsert(Departamentos, registros);
    }

    /** `upsert_trabajos`. */
    method UpsertTrabajos(registros: seq<Row>) returns (r: Result<nat, Error>)
      requires AllOf(Trabajos, registros)
      modifies this
      ensures (State(), r) == UpsertSpec(old(State()), Trabajos, registros)
    {
      r := Upsert(Trabajos, registros);
    }

    /** `upsert_empleados`. */
    method UpsertEmpleados(registros: seq<Row>) returns (r: Result<nat, Error>)
      requires AllOf(EmpleadosContratados, registros)
      modifies this
      ensures (State(), r) == UpsertSpec(old(State()), EmpleadosContratados, registros)
    {
      r := Upsert(EmpleadosContratados, registros);
    }

    /** `DELETE FROM tabla` and its commit; `rowcount` is the number of rows removed. */
    method DeleteAll(t: Table) returns (r: Result<nat, Error>)
      modifies this
      ensures (State(), r) == DeleteSpec(old(State()), t)
    {
      var db := State();
      if Referenced(db, t) {
        return Err(DeleteFailed(t));
      }
      var removed := |db.Rows(t)|;
      Commit(t, map[]);
      r := Ok(removed);
    }
  }

  /**
   * The statement `execute_values` sends, page by page, applied to a copy of table `t`: the first
   * row that does not fit its columns, references a missing row or repeats a key of its page
   * makes the statement fail.
   */
  method Stage(db: Db, t: Table, registros: seq<Row>) returns (ok: bool, staged: map<int, Row>)
    ensures ok <==> Admissible(db, registros)
    ensures ok ==> staged == Overwrite(db.Rows(t), registros)
  {
    staged := db.Rows(t);
    var pageStart := 0;
    var inPage: set<int> := {};
    var i := 0;
    assert PageIds(registros, 0, 0) == {};
    while i < |registros|
      invariant Staging(db, t, registros, pageStart, i, inPage, staged)
    {
      var row := registros[i];
      ghost var p0, in0 := pageStart, inPage;
      if i % PageSize == 0 {
        pageStart, inPage := i, {};
      }
      StageAdvance(db, t, registros, p0, i, in0, staged, pageStart, inPage);
      if !ColumnsFit(row) || !ReferencesStored(db, row) {
        return false, staged;
      }
      if row.id in inPage {
        RepeatInPage(registros, pageStart, i);
        return false, staged;
      }
      staged := staged[row.id := row];
      inPage := inPage + {row.id};
      i := i + 1;
    }
    assert registros[..i] == registros;
    ok := true;
  }

  /**
   * What the statement has done after `i` rows: `pageStart` is where the current page of 1090
   * began, `inPage` the keys sent on it, `staged` the table with the rows so far applied, and
   * every row so far fits, references stored rows and repeats no key of its page.
   */
  ghost predicate Staging(db: Db, t: Table, rows: seq<Row>, pageStart: nat, i: nat, inPage: set<int>, staged: map<int, Row>)
  {
    && pageStart <= i <= |rows|
    && pageStart % PageSize == 0 && i - pageStart <= PageSize
    && (i < |rows| ==> (i - pageStart < PageSize || i % PageSize == 0))
    && inPage == PageIds(rows, pageStart, i)
    && staged == Overwrite(db.Rows(t), rows[..i])
    && (forall k :: 0 <= k < i ==> ColumnsFit(rows[k]) && ReferencesStored(db, rows[k]))
    && !DuplicateInPage(rows[..i])
  }

  /**
   * One more row: a new page starts at each multiple of 1090; a row that fits, references stored
   * rows and is new to its page keeps the staging facts one row further.
   */
  lemma StageAdvance(db: Db, t: Table, rows: seq<Row>, pageStart: nat, i: nat, inPage: set<int>, staged: map<int, Row>,
                     p: nat, ip: set<int>)
    requires Staging(db, t, rows, pageStart, i, inPage, staged) && i < |rows|
    requires p == (if i % PageSize == 0 then i else pageStart)
    requires ip == (if i % PageSize == 0 then {} else inPage)
    ensures p <= i && p % PageSize == 0 && i - p < PageSize && ip == PageIds(rows, p, i)
    ensures ColumnsFit(rows[i]) && ReferencesStored(db, rows[i]) && rows[i].id !in ip ==>
      Staging(db, t, rows, p, i + 1, ip + {rows[i].id}, staged[rows[i].id := rows[i]])
  {
    if i % PageSize == 0 {
      assert PageIds(rows, i, i) == {};
    }
    if ColumnsFit(rows[i]) && ReferencesStored(db, rows[i]) && rows[i].id !in ip {
      StageStep(db.Rows(t), rows, p, i);
      NextOnPage(p, i + 1);
    }
  }

  /** The keys of rows `lo` up to `hi` (exclusive): the part of the current page already sent. */
  function PageIds(rows: seq<Row>, lo: nat, hi: nat): set<int>
    requires lo <= hi <= |rows|
  {
    set k | lo <= k < hi :: rows[k].id
  }

  /** A key already seen on the current page makes the statement fail. */
  lemma RepeatInPage(rows: seq<Row>, pageStart: nat, i: nat)
    requires pageStart <= i < |rows| && pageStart % PageSize == 0 && i - pageStart < PageSize
    requires rows[i].id in PageIds(rows, pageStart, i)
    ensures DuplicateInPage(rows)
  {
    var k :| pageStart <= k < i && rows[k].id == rows[i].id;
    SamePage(pageStart, k);
    SamePage(pageStart, i);
  }

  /** One more row staged: the loop's bookkeeping moves on by that row. */
  lemma StageStep(m: map<int, Row>, rows: seq<Row>, pageStart: nat, i: nat)
    requires pageStart <= i < |rows| && pageStart % PageSize == 0 && i - pageStart < PageSize
    requires !DuplicateInPage(rows[..i]) && rows[i].id !in PageIds(rows, pageStart, i)
    ensures PageIds(rows, pageStart, i + 1) == PageIds(rows, pageStart, i) + {rows[i].id}
    ensures Overwrite(m, rows[..i + 1]) == Overwrite(m, rows[..i])[rows[i].id := rows[i]]
    ensures !DuplicateInPage(rows[..i + 1])
  {
    assert rows[..i + 1][..i] == rows[..i];
    NoDuplicateExtends(rows, i, pageStart);
  }

  /** The position after a row is on the same page or starts the next one. */
  lemma NextOnPage(pageStart: nat, j: nat)
    requires pageStart % PageSize == 0 && pageStart < j <= pageStart + PageSize
    ensures j - pageStart < PageSize || j % PageSize == 0
  {
    if j - pageStart == PageSize {
      var q := pageStart / PageSize;
      assert pageStart == PageSize * q;
      assert j == PageSize * (q + 1);
    }
  }

  /** Rows at or after a page start and before the next one are on that page. */
  lemma SamePage(pageStart: nat, k: nat)
    requires pageStart % PageSize == 0 && pageStart <= k < pageStart + PageSize
    ensures k / PageSize == pageStart / PageSize
  {
  }

  /** Appending a row whose key is new to its page keeps the batch free of in-page repeats. */
  lemma NoDuplicateExtends(rows: seq<Row>, i: nat, pageStart: nat)
    requires i < |rows| && pageStart <= i && pageStart % PageSize == 0 && i - pageStart < PageSize
    requires !DuplicateInPage(rows[..i])
    requires forall k :: pageStart <= k < i ==> rows[k].id != rows[i].id
    ensures !DuplicateInPage(rows[..i + 1])
  {
    var s := rows[..i + 1];
    forall a, b | 0 <= a < b < |s| && a / PageSize == b / PageSize ensures s[a].id != s[b].id {
      if b < i {
        assert rows[..i][a] == s[a] && rows[..i][b] == s[b];
      } else {
        SamePage(pageStart, i);
        if a < pageStart {
          BelowPage(a, pageStart);
        }
      }
    }
  }

  lemma BelowPage(a: nat, pageStart: nat)
    requires pageStart % PageSize == 0 && a < pageStart
    ensures a / PageSize < pageStart / PageSize
  {
  }
}
