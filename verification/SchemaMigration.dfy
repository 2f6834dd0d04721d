/**
 Keeping an existing database in step with newer models: the unattended migrator, the drift report
 and the statements the report proposes.
 */
module SchemaMigration {
  import opened Wrappers

  datatype Value = Null | Flag(flag: bool) | Number(number: real) | Text(text: string)

  /** A column's declared default: none, one computed per row, or a plain value. */
  datatype Default = NoDefault | Computed | Scalar(value: Value)

  /** `rendered` is the SQL type if the dialect can print it; `plain` is the printed type object. */
  datatype ModelColumn = ModelColumn(name: string, rendered: Option<string>, plain: string, nullable: bool,
                                     primary: bool, default: Default)

  datatype ModelTable = ModelTable(name: string, columns: seq<ModelColumn>)

  datatype Column = Column(typ: string, notNull: bool)

  type Row = map<string, Value>

  datatype Table = Table(columns: map<string, Column>, rows: seq<Row>)

  type Tables = map<string, Table>

  /** A column added with a default is NOT NULL; one added without is nullable. */
  datatype Statement =
    | AddColumn(table: string, column: string, typ: string, default: Option<Value>)
    | DropNotNull(table: string, column: string)

  ghost predicate WellFormed(models: seq<ModelTable>) {
    && (forall i, j :: 0 <= i < j < |models| ==> models[i].name != models[j].name)
    && (forall m :: m in models ==> forall i, j :: 0 <= i < j < |m.columns| ==> m.columns[i].name != m.columns[j].name)
    && (forall m, c :: m in models && c in m.columns ==> c.default != Scalar(Null))
  }

  predicate RowValid(columns: map<string, Column>, r: Row) {
    r.Keys == columns.Keys && forall c :: c in columns && columns[c].notNull ==> r[c] != Null
  }

  ghost predicate RowsValid(db: Tables) {
    forall t, r :: t in db && r in db[t].rows ==> RowValid(db[t].columns, r)
  }

  /* ---------- What statements do ---------- */

  function WithColumn(t: Table, column: string, typ: string, default: Option<Value>): Table {
    var value := if default.Some? then default.value else Null;
    Table(t.columns[column := Column(typ, default.Some?)],
        seq(|t.rows|, i requires 0 <= i < |t.rows| => t.rows[i][column := value]))
  }

  /** One statement that succeeds; `IF NOT EXISTS` makes adding an existing column do nothing. */
  function Executed(db: Tables, s: Statement): Tables {
    if s.table !in db then db
    else
      var t := db[s.table];
      match s
      case AddColumn(_, column, typ, default) =>
        if column in t.columns then db else db[s.table := WithColumn(t, column, typ, default)]
      case DropNotNull(_, column) =>
        if column !in t.columns then db
        else db[s.table := t.(columns := t.columns[column := t.columns[column].(notNull := false)])]
  }

  /** Statements in order, each in a transaction of its own; the `k`-th attempt fails if `fails(k)`. */
  function Applied(db: Tables, statements: seq<Statement>, fails: nat -> bool, first: nat): Tables {
    if statements == [] then db
    else
      var n := |statements| - 1;
      var before := Applied(db, statements[..n], fails, first);
      if fails(first + n) then before else Executed(before, statements[n])
  }

  lemma AppliedOne(db: Tables, statements: seq<Statement>, s: Statement, fails: nat -> bool, first: nat)
    ensures Applied(db, statements + [s], fails, first)
            == var before := Applied(db, statements, fails, first);
               if fails(first + |statements|) then before else Executed(before, s)
  {
    var all := statements + [s];
    assert all[..|all| - 1] == statements && all[|all| - 1] == s;
  }

  /* ---------- The migrator's statements ---------- */

  /** The default a column can be added NOT NULL with. */
  function UsableDefault(c: ModelColumn): Option<Value> {
    if !c.nullable && c.default.Scalar? then Some(c.default.value) else None
  }

  function Addition(table: string, c: ModelColumn, t: Table): seq<Statement> {
    if c.name in t.columns || c.rendered.None? then []
    else [AddColumn(table, c.name, c.rendered.value, UsableDefault(c))]
  }

  function Relaxation(table: string, c: ModelColumn, t: Table): seq<Statement> {
    if c.name in t.columns && c.nullable && t.columns[c.name].notNull && !c.primary
    then [DropNotNull(table, c.name)] else []
  }

  function Additions(table: string, columns: seq<ModelColumn>, t: Table): seq<Statement> {
    if columns == [] then []
    else Additions(table, columns[..|columns| - 1], t) + Addition(table, columns[|columns| - 1], t)
  }

  function Relaxations(table: string, columns: seq<ModelColumn>, t: Table): seq<Statement> {
    if columns == [] then []
    else Relaxations(table, columns[..|columns| - 1], t) + Relaxation(table, columns[|columns| - 1], t)
  }

  function TablePlan(m: ModelTable, readable: string -> bool, db: Tables): seq<Statement> {
    if m.name !in db || !readable(m.name) then []
    else Additions(m.name, m.columns, db[m.name]) + Relaxations(m.name, m.columns, db[m.name])
  }

  function Plan(models: seq<ModelTable>, readable: string -> bool, db: Tables): seq<Statement> {
    if models == [] then []
    else Plan(models[..|models| - 1], readable, db) + TablePlan(models[|models| - 1], readable, db)
  }

  /* ---------- Which statements those are ---------- */

  lemma {:induction false} AdditionsExact(table: string, columns: seq<ModelColumn>, t: Table, s: Statement)
    ensures s in Additions(table, columns, t) <==> exists c :: c in columns && s in Addition(table, c, t)
  {
    if columns != [] {
      var n := |columns| - 1;
      AdditionsExact(table, columns[..n], t, s);
      assert columns == columns[..n] + [columns[n]];
    }
  }

  lemma {:induction false} RelaxationsExact(table: string, columns: seq<ModelColumn>, t: Table, s: Statement)
    ensures s in Relaxations(table, columns, t) <==> exists c :: c in columns && s in Relaxation(table, c, t)
  {
    if columns != [] {
      var n := |columns| - 1;
      RelaxationsExact(table, columns[..n], t, s);
      assert columns == columns[..n] + [columns[n]];
    }
  }

  /** Why a statement is emitted. */
  ghost predicate Called(m: ModelTable, c: ModelColumn, readable: string -> bool, db: Tables, s: Statement) {
    && c in m.columns && m.name in db && readable(m.name)
    && (s in Addition(m.name, c, db[m.name]) || s in Relaxation(m.name, c, db[m.name]))
  }

  lemma TablePlanExact(m: ModelTable, readable: string -> bool, db: Tables, s: Statement)
    ensures s in TablePlan(m, readable, db) <==> exists c :: Called(m, c, readable, db, s)
  {
    if m.name in db && readable(m.name) {
      var t := db[m.name];
      AdditionsExact(m.name, m.columns, t, s);
      RelaxationsExact(m.name, m.columns, t, s);
      if s in Additions(m.name, m.columns, t) {
        var c :| c in m.columns && s in Addition(m.name, c, t);
        assert Called(m, c, readable, db, s);
      }
      if s in Relaxations(m.name, m.columns, t) {
        var c :| c in m.columns && s in Relaxation(m.name, c, t);
        assert Called(m, c, readable, db, s);
      }
    }
  }

  /** The table a planned statement was planned for. */
  lemma {:induction false} PlannedFor(models: seq<ModelTable>, readable: string -> bool, db: Tables, s: Statement)
    returns (k: nat)
    requires s in Plan(models, readable, db)
    ensures k < |models| && s in TablePlan(models[k], readable, db)
  {
    var n := |models| - 1;
    if s in TablePlan(models[n], readable, db) {
      k := n;
    } else {
      k := PlannedFor(models[..n], readable, db, s);
    }
  }

  lemma {:induction false} TablePlanned(models: seq<ModelTable>, readable: string -> bool, db: Tables, s: Statement,
      k: nat)
    requires k < |models| && s in TablePlan(models[k], readable, db)
    ensures s in Plan(models, readable, db)
  {
    var n := |models| - 1;
    if k < n {
      TablePlanned(models[..n], readable, db, s, k);
    }
  }

  /** A statement is emitted exactly when some column of some readable table calls for it. */
  lemma PlanExact(models: seq<ModelTable>, readable: string -> bool, db: Tables, s: Statement)
    ensures s in Plan(models, readable, db) <==> exists m, c :: m in models && Called(m, c, readable, db, s)
  {
    if s in Plan(models, readable, db) {
      var k := PlannedFor(models, readable, db, s);
      TablePlanExact(models[k], readable, db, s);
      var c :| Called(models[k], c, readable, db, s);
      assert models[k] in models;
    }
    if m, c :| m in models && Called(m, c, readable, db, s) {
      var k :| 0 <= k < |models| && models[k] == m;
      TablePlanExact(m, readable, db, s);
      TablePlanned(models, readable, db, s, k);
    }
  }

  /* ---------- What any statements keep ---------- */

  /** No table, column, row or stored value is lost, no type changes, and a NOT NULL goes only where it is dropped. */
  ghost predicate TableKept(name: string, t: Table, u: Table, statements: seq<Statement>) {
    && |u.rows| == |t.rows|
    && (forall i, c ::
          0 <= i < |t.rows| && c in t.rows[i] && c in t.columns ==> c in u.rows[i] && u.rows[i][c] == t.rows[i][c])
    && (forall c :: c in t.columns ==>
                      && c in u.columns && u.columns[c].typ == t.columns[c].typ
                      && (u.columns[c].notNull ==> t.columns[c].notNull)
                      && (DropNotNull(name, c) !in statements ==> u.columns[c].notNull == t.columns[c].notNull))
    && (forall c :: c in u.columns && c !in t.columns ==>
                      exists typ, d :: AddColumn(name, c, typ, d) in statements && AddedAs(u, c, typ, d)
                                       && (DropNotNull(name, c) !in statements ==> u.columns[c].notNull == d.Some?))
  }

  /** The added column has the type, and every row the default or NULL; it is NOT NULL only with a default. */
  ghost predicate AddedAs(u: Table, c: string, typ: string, d: Option<Value>) {
    && c in u.columns && u.columns[c].typ == typ && (u.columns[c].notNull ==> d.Some?)
    && forall i :: 0 <= i < |u.rows| ==> c in u.rows[i] && u.rows[i][c] == if d.Some? then d.value else Null
  }

  ghost predicate Kept(db: Tables, now: Tables, statements: seq<Statement>) {
    now.Keys == db.Keys && forall t :: t in db ==> TableKept(t, db[t], now[t], statements)
  }

  lemma TableKeptOnce(name: string, t: Table, u: Table, statements: seq<Statement>, s: Statement)
    requires TableKept(name, t, u, statements) && s.table == name
    ensures TableKept(name, t, Executed(map[name := u], s)[name], statements + [s])
  {
    var all, v := statements + [s], Executed(map[name := u], s)[name];
    assert forall x :: x in all <==> x in statements || x == s;
    forall c | c in v.columns && c !in t.columns
      ensures exists typ, d :: AddColumn(name, c, typ, d) in all && AddedAs(v, c, typ, d)
                               && (DropNotNull(name, c) !in all ==> v.columns[c].notNull == d.Some?)
    {
      var typ, d := AddedOnce(name, u, statements, s, c);
      assert AddColumn(name, c, typ, d) in all;
    }
  }

  lemma AddedOnce(name: string, u: Table, statements: seq<Statement>, s: Statement, c: string)
    returns (typ: string, d: Option<Value>)
    requires s.table == name && c in Executed(map[name := u], s)[name].columns
    requires c in u.columns ==>
               exists typ, d :: AddColumn(name, c, typ, d) in statements && AddedAs(u, c, typ, d)
                                && (DropNotNull(name, c) !in statements ==> u.columns[c].notNull == d.Some?)
    ensures var v := Executed(map[name := u], s)[name];
            && (AddColumn(name, c, typ, d) in statements || AddColumn(name, c, typ, d) == s) && AddedAs(v, c, typ, d)
            && (DropNotNull(name, c) !in statements && DropNotNull(name, c) != s ==> v.columns[c].notNull == d.Some?)
  {
    if c in u.columns {
      typ, d :| AddColumn(name, c, typ, d) in statements && AddedAs(u, c, typ, d)
                && (DropNotNull(name, c) !in statements ==> u.columns[c].notNull == d.Some?);
    } else {
      typ, d := s.typ, s.default;
    }
  }

  lemma TableKeptMore(name: string, t: Table, u: Table, statements: seq<Statement>, s: Statement)
    requires TableKept(name, t, u, statements)
    ensures TableKept(name, t, u, statements + [s])
  {
  }

  lemma {:induction false} AnythingKept(db: Tables, statements: seq<Statement>, fails: nat -> bool, first: nat)
    ensures Kept(db, Applied(db, statements, fails, first), statements)
  {
    if statements != [] {
      var n := |statements| - 1;
      var s, before := statements[n], Applied(db, statements[..n], fails, first);
      AnythingKept(db, statements[..n], fails, first);
      assert statements == statements[..n] + [s];
      forall t | t in db
        ensures TableKept(t, db[t], Applied(db, statements, fails, first)[t], statements)
      {
        TableKeptMore(t, db[t], before[t], statements[..n], s);
        if s.table == t {
          TableKeptOnce(t, db[t], before[t], statements[..n], s);
          assert Executed(before, s)[t] == Executed(map[t := before[t]], s)[t];
        }
      }
    }
  }

  ghost predicate DefaultsUsable(statements: seq<Statement>) {
    forall s :: s in statements && s.AddColumn? ==> s.default != Some(Null)
  }

  lemma RowsStayValidOnce(db: Tables, s: Statement)
    requires RowsValid(db) && (s.AddColumn? ==> s.default != Some(Null))
    ensures RowsValid(Executed(db, s))
  {
    var now := Executed(db, s);
    forall t, r | t in now && r in now[t].rows
      ensures RowValid(now[t].columns, r)
    {
      if t == s.table && now != db {
        var i :| 0 <= i < |now[t].rows| && now[t].rows[i] == r;
        assert db[t].rows[i] in db[t].rows;
      }
    }
  }

  lemma {:induction false} RowsStayValid(db: Tables, statements: seq<Statement>, fails: nat -> bool, first: nat)
    requires RowsValid(db) && DefaultsUsable(statements)
    ensures RowsValid(Applied(db, statements, fails, first))
  {
    if statements != [] {
      var n := |statements| - 1;
      RowsStayValid(db, statements[..n], fails, first);
      assert statements[n] in statements;
      if !fails(first + n) {
        RowsStayValidOnce(Applied(db, statements[..n], fails, first), statements[n]);
      }
    }
  }

  /* ---------- The migrator's guarantees ---------- */

  /** A NOT NULL is dropped only where the model allows NULL on a column that is no key; a column is added only where
      a model has it, with its type and, if it is NOT NULL there, its plain default. */
  ghost predicate Justified(models: seq<ModelTable>, db: Tables, s: Statement) {
    match s
    case DropNotNull(t, c) => exists m, k :: Declares(models, m, k, t, c) && k.nullable && !k.primary
    case AddColumn(t, c, typ, d) =>
      && t in db && c !in db[t].columns && d != Some(Null)
      && exists m, k :: Declares(models, m, k, t, c) && k.rendered == Some(typ) && d == UsableDefault(k)
  }

  ghost predicate Declares(models: seq<ModelTable>, m: ModelTable, k: ModelColumn, t: string, c: string) {
    m in models && k in m.columns && m.name == t && k.name == c
  }

  lemma CalledIsJustified(models: seq<ModelTable>, m: ModelTable, k: ModelColumn, readable: string -> bool, db: Tables,
                          s: Statement)
    requires WellFormed(models) && m in models && Called(m, k, readable, db, s)
    ensures Justified(models, db, s)
  {
    assert Declares(models, m, k, m.name, k.name);
  }

  lemma PlannedIsJustified(models: seq<ModelTable>, readable: string -> bool, db: Tables, s: Statement)
    requires WellFormed(models) && s in Plan(models, readable, db)
    ensures Justified(models, db, s)
  {
    PlanExact(models, readable, db, s);
    var m, k :| m in models && Called(m, k, readable, db, s);
    CalledIsJustified(models, m, k, readable, db, s);
  }

  /** Whatever fails: nothing is lost or retyped, every change is one the models ask for, and every row stays valid. */
  lemma MigrationIsSafe(models: seq<ModelTable>, readable: string -> bool, db: Tables, fails: nat -> bool, first: nat)
    requires WellFormed(models)
    ensures var plan := Plan(models, readable, db); var now := Applied(db, plan, fails, first);
            && Kept(db, now, plan)
            && (RowsValid(db) ==> RowsValid(now))
            && (forall s :: s in plan ==> Justified(models, db, s))
  {
    var plan := Plan(models, readable, db);
    AnythingKept(db, plan, fails, first);
    forall s | s in plan
      ensures Justified(models, db, s)
    {
      PlannedIsJustified(models, readable, db, s);
    }
    if RowsValid(db) {
      RowsStayValid(db, plan, fails, first);
    }
  }

  /** A statement that was among those applied, none failing, has had its effect. */
  ghost predicate Effective(db: Tables, s: Statement) {
    s.table in db ==>
      match s
      case AddColumn(t, c, _, _) => c in db[t].columns
      case DropNotNull(t, c) => c in db[t].columns ==> !db[t].columns[c].notNull
  }

  lemma EffectStays(db: Tables, s: Statement, later: Statement)
    requires Effective(db, s) && (s.DropNotNull? && s.table in db ==> s.column in db[s.table].columns)
    ensures Effective(Executed(db, later), s)
  {
  }

  lemma {:induction false} AllEffective(db: Tables, statements: seq<Statement>, s: Statement, fails: nat -> bool,
      first: nat)
    requires s in statements && forall k: nat :: first <= k < first + |statements| ==> !fails(k)
    requires s.DropNotNull? && s.table in db ==> s.column in db[s.table].columns
    ensures Effective(Applied(db, statements, fails, first), s)
  {
    var n := |statements| - 1;
    var before := Applied(db, statements[..n], fails, first);
    AnythingKept(db, statements[..n], fails, first);
    if s in statements[..n] {
      AllEffective(db, statements[..n], s, fails, first);
      EffectStays(before, s, statements[n]);
    } else {
      assert s == statements[n];
    }
  }

  /* ---------- The drift report ---------- */

  function MissingIn(m: ModelTable, t: Table): set<string> {
    set c | c in m.columns && c.name !in t.columns :: c.name
  }

  /** A column the models declare on a table that exists but does not have it. */
  ghost predicate Missing(models: seq<ModelTable>, db: Tables, m: ModelTable, c: ModelColumn) {
    m in models && c in m.columns && m.name in db && c.name !in db[m.name].columns
  }

  ghost predicate NoColumnDrift(models: seq<ModelTable>, db: Tables) {
    forall m, c :: !Missing(models, db, m, c)
  }

  /** A column the migrator adds is the one the model declares: its type, its default in every row, and nullable if
      the model allows NULL. */
  lemma AddedAsDeclared(models: seq<ModelTable>, readable: string -> bool, db: Tables, fails: nat -> bool, first: nat,
                        m: ModelTable, c: ModelColumn)
    requires WellFormed(models) && Missing(models, db, m, c)
    ensures var now := Applied(db, Plan(models, readable, db), fails, first);
            m.name in now && (c.name in now[m.name].columns ==>
                                c.rendered.Some? && AddedAs(now[m.name], c.name, c.rendered.value, UsableDefault(c)))
  {
    var plan := Plan(models, readable, db);
    var now := Applied(db, plan, fails, first);
    AnythingKept(db, plan, fails, first);
    assert TableKept(m.name, db[m.name], now[m.name], plan);
    if c.name in now[m.name].columns {
      var typ, d := AddedBy(m.name, db[m.name], now[m.name], plan, c.name);
      PlannedIsJustified(models, readable, db, AddColumn(m.name, c.name, typ, d));
      AsDeclared(models, db, m, c, typ, d);
    }
  }

  lemma AddedBy(name: string, t: Table, u: Table, statements: seq<Statement>, c: string)
      returns (typ: string, d: Option<Value>)
    requires TableKept(name, t, u, statements) && c in u.columns && c !in t.columns
    ensures AddColumn(name, c, typ, d) in statements && AddedAs(u, c, typ, d)
    ensures DropNotNull(name, c) !in statements ==> u.columns[c].notNull == d.Some?
  {
    typ, d :| AddColumn(name, c, typ, d) in statements && AddedAs(u, c, typ, d)
              && (DropNotNull(name, c) !in statements ==> u.columns[c].notNull == d.Some?);
  }

  /** Every row of the table holds the value in the column. */
  ghost predicate EveryRowHolds(t: Table, c: string, v: Value) {
    forall i :: 0 <= i < |t.rows| ==> c in t.rows[i] && t.rows[i][c] == v
  }

  /** A column that was missing and has been added: where the model has it NOT NULL with a plain default, it is NOT NULL
      and every row holds that default; in every other case it is nullable and every row holds NULL. */
  lemma AddedExactly(models: seq<ModelTable>, readable: string -> bool, db: Tables, fails: nat -> bool, first: nat,
                     m: ModelTable, c: ModelColumn)
    requires WellFormed(models) && Missing(models, db, m, c)
    ensures var now := Applied(db, Plan(models, readable, db), fails, first);
            m.name in now && (c.name in now[m.name].columns ==>
                                && c.rendered == Some(now[m.name].columns[c.name].typ)
                                && (forall v :: !c.nullable && c.default == Scalar(v) ==>
                                      now[m.name].columns[c.name].notNull && EveryRowHolds(now[m.name], c.name, v))
                                && (c.nullable || c.default == NoDefault || c.default == Computed ==>
                                      !now[m.name].columns[c.name].notNull && EveryRowHolds(now[m.name], c.name, Null)))
  {
    var plan := Plan(models, readable, db);
    var now := Applied(db, plan, fails, first);
    AnythingKept(db, plan, fails, first);
    if c.name in now[m.name].columns {
      var typ, d := AddedBy(m.name, db[m.name], now[m.name], plan, c.name);
      PlannedIsJustified(models, readable, db, AddColumn(m.name, c.name, typ, d));
      AsDeclared(models, db, m, c, typ, d);
      NotRelaxed(models, readable, db, m, c);
    }
  }

  /** The NOT NULL of a column that is not there yet is not dropped in the same run. */
  lemma NotRelaxed(models: seq<ModelTable>, readable: string -> bool, db: Tables, m: ModelTable, c: ModelColumn)
    requires Missing(models, db, m, c)
    ensures DropNotNull(m.name, c.name) !in Plan(models, readable, db)
  {
    PlanExact(models, readable, db, DropNotNull(m.name, c.name));
  }

  lemma AsDeclared(models: seq<ModelTable>, db: Tables, m: ModelTable, c: ModelColumn, typ: string, d: Option<Value>)
    requires WellFormed(models) && m in models && c in m.columns
    requires Justified(models, db, AddColumn(m.name, c.name, typ, d))
    ensures c.rendered == Some(typ) && d == UsableDefault(c)
  {
  }

  /** The statement was attempted at some place and did not fail there. */
  ghost predicate Landed(statements: seq<Statement>, fails: nat -> bool, first: nat, s: Statement) {
    exists i :: 0 <= i < |statements| && statements[i] == s && !fails(first + i)
  }

  ghost predicate SomeAdditionLanded(statements: seq<Statement>, fails: nat -> bool, first: nat, t: string, c: string) {
    exists i :: 0 <= i < |statements| && !fails(first + i)
                && statements[i].AddColumn? && statements[i].table == t && statements[i].column == c
  }

  /** A column is there afterwards exactly when some statement that adds it did not fail. */
  lemma {:induction false} ColumnAppears(db: Tables, statements: seq<Statement>, fails: nat -> bool, first: nat,
      t: string, c: string)
    requires t in db && c !in db[t].columns
    ensures var now := Applied(db, statements, fails, first);
            t in now && (c in now[t].columns <==> SomeAdditionLanded(statements, fails, first, t, c))
  {
    if statements != [] {
      var n := |statements| - 1;
      ColumnAppears(db, statements[..n], fails, first, t, c);
      forall i | 0 <= i < n
        ensures statements[..n][i] == statements[i]
      {
      }
    }
  }

  /** Whatever cannot be read and whatever fails: a column stays missing exactly when its type cannot be rendered or its
      own statement did not land. */
  lemma DriftPerColumn(models: seq<ModelTable>, readable: string -> bool, db: Tables, fails: nat -> bool, first: nat,
                       m: ModelTable, c: ModelColumn)
    requires WellFormed(models)
    ensures var plan := Plan(models, readable, db);
            Missing(models, Applied(db, plan, fails, first), m, c)
            <==> Missing(models, db, m, c)
                 && (c.rendered.None?
                     || !Landed(plan, fails, first, AddColumn(m.name, c.name, c.rendered.value, UsableDefault(c))))
  {
    var plan := Plan(models, readable, db);
    AnythingKept(db, plan, fails, first);
    if Missing(models, db, m, c) {
      ColumnAppears(db, plan, fails, first, m.name, c.name);
      if SomeAdditionLanded(plan, fails, first, m.name, c.name) {
        var i :| 0 <= i < |plan| && plan[i].AddColumn? && plan[i].table == m.name && plan[i].column == c.name
                 && !fails(first + i);
        PlannedIsJustified(models, readable, db, plan[i]);
        AsDeclared(models, db, m, c, plan[i].typ, plan[i].default);
      }
    }
  }

  /** With every table readable and no statement failing, exactly the columns whose type cannot be rendered stay
      missing. */
  lemma MigratedDrift(models: seq<ModelTable>, readable: string -> bool, db: Tables, fails: nat -> bool, first: nat,
                      m: ModelTable, c: ModelColumn)
    requires WellFormed(models) && (forall t :: readable(t))
    requires forall k: nat :: first <= k < first + |Plan(models, readable, db)| ==> !fails(k)
    ensures Missing(models, Applied(db, Plan(models, readable, db), fails, first), m, c)
            <==> Missing(models, db, m, c) && c.rendered.None?
  {
    DriftPerColumn(models, readable, db, fails, first, m, c);
    if Missing(models, db, m, c) && c.rendered.Some? {
      var s := AddColumn(m.name, c.name, c.rendered.value, UsableDefault(c));
      assert Called(m, c, readable, db, s);
      PlanExact(models, readable, db, s);
      assert Landed(Plan(models, readable, db), fails, first, s);
    }
  }

  /** A column whose type cannot be rendered: nothing is emitted for it, and it is missing afterwards. */
  lemma UnrenderableStays()
    ensures var c := ModelColumn("size", None, "CUSTOM", true, false, NoDefault);
            var models, db: Tables := [ModelTable("jobs", [c])], map["jobs" := Table(map[], [])];
            WellFormed(models) && Plan(models, t => true, db) == [] && Missing(models, db, models[0], c)
  {
    var c := ModelColumn("size", None, "CUSTOM", true, false, NoDefault);
    var m, db: Tables := ModelTable("jobs", [c]), map["jobs" := Table(map[], [])];
    assert [c][..0] == [] && [m][..0] == [];
    assert Addition("jobs", c, db["jobs"]) == [] && Relaxation("jobs", c, db["jobs"]) == [];
    assert Additions("jobs", [c], db["jobs"]) == Additions("jobs", [], db["jobs"]) + [];
    assert Relaxations("jobs", [c], db["jobs"]) == Relaxations("jobs", [], db["jobs"]) + [];
  }

  /** So the migrator clears the column drift exactly when every missing column has a type that can be rendered. */
  lemma DriftClearedExactly(models: seq<ModelTable>, readable: string -> bool, db: Tables, fails: nat -> bool,
      first: nat)
    requires WellFormed(models) && (forall t :: readable(t))
    requires forall k: nat :: first <= k < first + |Plan(models, readable, db)| ==> !fails(k)
    ensures NoColumnDrift(models, Applied(db, Plan(models, readable, db), fails, first))
            <==> forall m, c :: Missing(models, db, m, c) ==> c.rendered.Some?
  {
    forall m, c
      ensures Missing(models, Applied(db, Plan(models, readable, db), fails, first), m, c)
              <==> Missing(models, db, m, c) && c.rendered.None?
    {
      MigratedDrift(models, readable, db, fails, first, m, c);
    }
  }

  /** Run again, it has nothing to do. */
  lemma SecondRunIsIdle(models: seq<ModelTable>, readable: string -> bool, db: Tables, fails: nat -> bool, first: nat)
    requires WellFormed(models) && (forall t :: readable(t))
    requires forall k: nat :: first <= k < first + |Plan(models, readable, db)| ==> !fails(k)
    ensures Plan(models, readable, Applied(db, Plan(models, readable, db), fails, first)) == []
  {
    var plan := Plan(models, readable, db);
    var now := Applied(db, plan, fails, first);
    var again := Plan(models, readable, now);
    if again != [] {
      var s := again[0];
      PlanExact(models, readable, now, s);
      var m, c :| m in models && Called(m, c, readable, now, s);
      if s.AddColumn? {
        AnythingKept(db, plan, fails, first);
        MigratedDrift(models, readable, db, fails, first, m, c);
        assert Missing(models, now, m, c);
        assert false;
      } else {
        NothingToRelax(models, readable, db, fails, first, m, c);
        assert false;
      }
    }
  }

  /** A column that is nullable in the models is nullable afterwards, unless it is part of the key. */
  lemma NothingToRelax(models: seq<ModelTable>, readable: string -> bool, db: Tables, fails: nat -> bool, first: nat,
                       m: ModelTable, c: ModelColumn)
    requires WellFormed(models) && (forall t :: readable(t))
    requires forall k: nat :: first <= k < first + |Plan(models, readable, db)| ==> !fails(k)
    requires m in models && c in m.columns && c.nullable && !c.primary
    ensures var now := Applied(db, Plan(models, readable, db), fails, first);
            m.name in now && c.name in now[m.name].columns ==> !now[m.name].columns[c.name].notNull
  {
    var plan := Plan(models, readable, db);
    var now := Applied(db, plan, fails, first);
    AnythingKept(db, plan, fails, first);
    if m.name in now && c.name in now[m.name].columns {
      if c.name !in db[m.name].columns {
        AddedAsDeclared(models, readable, db, fails, first, m, c);
      } else if db[m.name].columns[c.name].notNull {
        var s := DropNotNull(m.name, c.name);
        assert Called(m, c, readable, db, s);
        PlanExact(models, readable, db, s);
        AllEffective(db, plan, s, fails, first);
      }
    }
  }

  /* ---------- The statements proposed for review ---------- */

  datatype Drift = Drift(missingTables: seq<string>, missingColumns: map<string, set<string>>)

  predicate Names(d: Drift, t: string, c: string) {
    t in d.missingColumns && c in d.missingColumns[t]
  }

  ghost predicate MissingNamed(models: seq<ModelTable>, db: Tables, t: string, c: string) {
    exists m, k :: Missing(models, db, m, k) && m.name == t && k.name == c
  }

  /** The report names exactly the model tables that do not exist, in model order, and for each other table with a
      missing column the set of them. */
  ghost predicate Reports(d: Drift, models: seq<ModelTable>, db: Tables) {
    && d.missingTables == AbsentTables(models, db)
    && (forall t, c :: Names(d, t, c) <==> MissingNamed(models, db, t, c))
    && (forall t :: t in d.missingColumns ==> d.missingColumns[t] != {})
  }

  function AbsentTables(models: seq<ModelTable>, db: Tables): seq<string> {
    if models == [] then []
    else
      var n := |models| - 1;
      AbsentTables(models[..n], db) + (if models[n].name in db then [] else [models[n].name])
  }

  /** `type_sql`, with the fallback to the printed type */
  function ProposedType(c: ModelColumn): string {
    if c.rendered.Some? then c.rendered.value else c.plain
  }

  /** The statement adds a reported column of one of the tables: nullable, with its model's type. */
  ghost predicate Proposal(models: seq<ModelTable>, d: Drift, tables: set<string>, s: Statement) {
    exists m, c :: m in models && c in m.columns && m.name in tables && Names(d, m.name, c.name)
                   && s == AddColumn(m.name, c.name, ProposedType(c), None)
  }

  /** One statement for every reported column, and no others. */
  ghost predicate Proposes(statements: seq<Statement>, models: seq<ModelTable>, d: Drift) {
    forall s :: s in statements <==> Proposal(models, d, d.missingColumns.Keys, s)
  }

  lemma ProposalAdds(models: seq<ModelTable>, db: Tables, d: Drift, statements: seq<Statement>, fails: nat -> bool,
                     m: ModelTable, c: ModelColumn)
    requires Reports(d, models, db) && Proposes(statements, models, d)
    requires forall k: nat :: k < |statements| ==> !fails(k)
    requires Missing(models, db, m, c)
    ensures var now := Applied(db, statements, fails, 0);
            m.name in now && c.name in now[m.name].columns
  {
    var s := AddColumn(m.name, c.name, ProposedType(c), None);
    assert MissingNamed(models, db, m.name, c.name);
    assert Names(d, m.name, c.name);
    assert Proposal(models, d, d.missingColumns.Keys, s);
    AllEffective(db, statements, s, fails, 0);
    AnythingKept(db, statements, fails, 0);
  }

  /** Running what is proposed for a report leaves no column missing, whatever order it is listed in, and keeps every
      row and value and every existing column as it is. */
  lemma ProposalClearsDrift(models: seq<ModelTable>, db: Tables, d: Drift, statements: seq<Statement>,
      fails: nat -> bool)
    requires WellFormed(models) && Reports(d, models, db) && Proposes(statements, models, d)
    requires forall k: nat :: k < |statements| ==> !fails(k)
    ensures var now := Applied(db, statements, fails, 0);
            && NoColumnDrift(models, now) && Kept(db, now, statements)
            && (RowsValid(db) ==> RowsValid(now))
            && (forall s :: s in statements ==> s.AddColumn?)
  {
    var now := Applied(db, statements, fails, 0);
    AnythingKept(db, statements, fails, 0);
    if RowsValid(db) {
      RowsStayValid(db, statements, fails, 0);
    }
    forall m, c
      ensures !Missing(models, now, m, c)
    {
      if Missing(models, db, m, c) {
        ProposalAdds(models, db, d, statements, fails, m, c);
      }
    }
  }

  /** A column they add has its model's type, printed from the type object if the dialect cannot render it; it is
      nullable, and every row holds NULL. */
  lemma ProposedAsDeclared(models: seq<ModelTable>, db: Tables, d: Drift, statements: seq<Statement>,
                           fails: nat -> bool, m: ModelTable, c: ModelColumn)
    requires WellFormed(models) && Proposes(statements, models, d) && Missing(models, db, m, c)
    ensures var now := Applied(db, statements, fails, 0);
            m.name in now && (c.name in now[m.name].columns ==>
                                && (forall typ :: c.rendered == Some(typ) ==> now[m.name].columns[c.name].typ == typ)
                                && (c.rendered == None ==> now[m.name].columns[c.name].typ == c.plain)
                                && !now[m.name].columns[c.name].notNull && EveryRowHolds(now[m.name], c.name, Null))
  {
    var now := Applied(db, statements, fails, 0);
    AnythingKept(db, statements, fails, 0);
    if c.name in now[m.name].columns {
      var typ, v := AddedBy(m.name, db[m.name], now[m.name], statements, c.name);
      ProposedOnly(models, d, m, c, AddColumn(m.name, c.name, typ, v));
      assert DropNotNull(m.name, c.name) !in statements;
    }
  }

  lemma ProposedOnly(models: seq<ModelTable>, d: Drift, m: ModelTable, c: ModelColumn, s: Statement)
    requires WellFormed(models) && m in models && c in m.columns && s.table == m.name && s.column == c.name
    requires Proposal(models, d, d.missingColumns.Keys, s)
    ensures s == AddColumn(m.name, c.name, if c.rendered.Some? then c.rendered.value else c.plain, None)
  {
    var k, e :| k in models && e in k.columns && s == AddColumn(k.name, e.name, ProposedType(e), None);
    assert k == m && e == c;
  }

  /** The missing columns of the tables that exist, for those that have any. */
  function MissingColumns(models: seq<ModelTable>, db: Tables): map<string, set<string>> {
    if models == [] then map[]
    else
      var before, m := MissingColumns(models[..|models| - 1], db), models[|models| - 1];
      if m.name in db && MissingIn(m, db[m.name]) != {} then before[m.name := MissingIn(m, db[m.name])] else before
  }

  lemma {:induction false} MissingColumnsExact(models: seq<ModelTable>, db: Tables, t: string, c: string)
    requires WellFormed(models)
    ensures var columns := MissingColumns(models, db);
            && (t in columns && c in columns[t] <==> MissingNamed(models, db, t, c))
            && (t in columns ==> columns[t] != {} && exists m :: m in models && m.name == t)
  {
    if models != [] {
      var n := |models| - 1;
      var m := models[n];
      assert models == models[..n] + [m];
      MissingColumnsExact(models[..n], db, t, c);
      MissingSplits(models[..n], m, db, t, c);
      OneTableMissing(m, db, t, c);
    }
  }

  lemma MissingSplits(models: seq<ModelTable>, m: ModelTable, db: Tables, t: string, c: string)
    ensures MissingNamed(models + [m], db, t, c) <==> MissingNamed(models, db, t, c) || MissingNamed([m], db, t, c)
  {
    forall k, col
      ensures Missing(models + [m], db, k, col) <==> Missing(models, db, k, col) || Missing([m], db, k, col)
    {
    }
  }

  lemma OneTableMissing(m: ModelTable, db: Tables, t: string, c: string)
    ensures MissingNamed([m], db, t, c) <==> t == m.name && t in db && c in MissingIn(m, db[t])
  {
    if t == m.name && t in db && c in MissingIn(m, db[t]) {
      var k :| k in m.columns && k.name == c && k.name !in db[t].columns;
      assert Missing([m], db, m, k);
    }
  }

  /** `check_schema_drift` */
  method CheckSchemaDrift(models: seq<ModelTable>, db: Tables) returns (d: Drift)
    requires WellFormed(models)
    ensures Reports(d, models, db)
    ensures d.missingTables == [] && d.missingColumns == map[] <==>
            (forall m :: m in models ==> m.name in db) && NoColumnDrift(models, db)
  {
    var absent, columns: map<string, set<string>> := [], map[];
    for i := 0 to |models|
      invariant absent == AbsentTables(models[..i], db) && columns == MissingColumns(models[..i], db)
    {
      var m := models[i];
      assert models[..i + 1][..i] == models[..i];
      if m.name !in db {
        absent := absent + [m.name];
      } else {
        var missing := MissingIn(m, db[m.name]);
        if missing != {} {
          columns := columns[m.name := missing];
        }
      }
    }
    assert models[..|models|] == models;
    d := Drift(absent, columns);
    ReportsFrom(d, models, db);
    ReportEmpty(d, models, db);
  }

  lemma ReportsFrom(d: Drift, models: seq<ModelTable>, db: Tables)
    requires WellFormed(models) && d == Drift(AbsentTables(models, db), MissingColumns(models, db))
    ensures Reports(d, models, db)
  {
    forall t, c
      ensures Names(d, t, c) <==> MissingNamed(models, db, t, c)
    {
      MissingColumnsExact(models, db, t, c);
    }
    forall t | t in d.missingColumns
      ensures d.missingColumns[t] != {}
    {
      MissingColumnsExact(models, db, t, "");
    }
  }

  lemma ReportEmpty(d: Drift, models: seq<ModelTable>, db: Tables)
    requires Reports(d, models, db)
    ensures d.missingTables == [] && d.missingColumns == map[] <==>
            (forall m :: m in models ==> m.name in db) && NoColumnDrift(models, db)
  {
    NoneAbsent(models, db);
    if d.missingColumns != map[] {
      var t :| t in d.missingColumns;
      var c :| c in d.missingColumns[t];
      assert Names(d, t, c);
    }
    if m, k :| Missing(models, db, m, k) {
      assert MissingNamed(models, db, m.name, k.name);
      assert Names(d, m.name, k.name);
    }
  }

  lemma {:induction false} NoneAbsent(models: seq<ModelTable>, db: Tables)
    ensures AbsentTables(models, db) == [] <==> forall i :: 0 <= i < |models| ==> models[i].name in db
  {
    if models != [] {
      var n := |models| - 1;
      NoneAbsent(models[..n], db);
      assert forall i :: 0 <= i < n ==> models[..n][i] == models[i];
    }
  }

  /** The tables reported absent are the model tables that do not exist, each once. */
  lemma {:induction false} AbsentExact(models: seq<ModelTable>, db: Tables)
    requires WellFormed(models)
    ensures forall t :: t in AbsentTables(models, db) <==> t !in db && exists m :: m in models && m.name == t
    ensures Distinct(AbsentTables(models, db))
  {
    if models != [] {
      var n := |models| - 1;
      assert models == models[..n] + [models[n]];
      AbsentExact(models[..n], db);
    }
  }

  lemma {:induction false} AbsentAt(models: seq<ModelTable>, db: Tables, k: nat) returns (i: nat)
    requires k < |models| && models[k].name !in db
    ensures i < |AbsentTables(models, db)| && AbsentTables(models, db)[i] == models[k].name
  {
    var n := |models| - 1;
    if k < n {
      i := AbsentAt(models[..n], db, k);
    } else {
      i := |AbsentTables(models[..n], db)|;
    }
  }

  /** They are reported in the order of the models. */
  lemma {:induction false} AbsentInOrder(models: seq<ModelTable>, db: Tables, k: nat, l: nat) returns (i: nat, j: nat)
    requires k < l < |models| && models[k].name !in db && models[l].name !in db
    ensures i < j < |AbsentTables(models, db)|
    ensures AbsentTables(models, db)[i] == models[k].name && AbsentTables(models, db)[j] == models[l].name
  {
    var n := |models| - 1;
    if l < n {
      i, j := AbsentInOrder(models[..n], db, k, l);
    } else {
      i := AbsentAt(models[..n], db, k);
      j := |AbsentTables(models[..n], db)|;
    }
  }

  /** `generate_migration_sql`; tables and columns come in some order. */
  method GenerateMigrationSql(models: seq<ModelTable>, d: Drift) returns (statements: seq<Statement>)
    requires WellFormed(models)
    ensures Proposes(statements, models, d)
    ensures Distinct(statements)
  {
    statements := [];
    var tables := d.missingColumns.Keys;
    while tables != {}
      invariant tables <= d.missingColumns.Keys
      invariant forall s :: s in statements <==> Proposal(models, d, d.missingColumns.Keys - tables, s)
      invariant Distinct(statements)
      decreases |tables|
    {
      var t :| t in tables;
      ghost var before := d.missingColumns.Keys - tables;
      tables := tables - {t};
      assert d.missingColumns.Keys - tables == before + {t};
      var more := [];
      var found := FindTable(models, t);
      if found.Some? {
        more := TableProposal(found.value, d.missingColumns[t]);
      }
      assert forall s :: s in more <==> Proposal(models, d, {t}, s) by {
        OneTable(models, d, t, found, more);
      }
      TwoSets(models, d, before, t);
      Joined(statements, more);
      statements := statements + more;
    }
  }

  lemma Joined(a: seq<Statement>, b: seq<Statement>)
    requires Distinct(a) && Distinct(b) && forall s :: !(s in a && s in b)
    ensures Distinct(a + b)
  {
    forall i, j | 0 <= i < |a| && 0 <= j < |b|
      ensures a[i] != b[j]
    {
      assert a[i] in a;
    }
  }

  lemma TwoSets(models: seq<ModelTable>, d: Drift, tables: set<string>, t: string)
    requires t !in tables
    ensures forall s ::
              Proposal(models, d, tables + {t}, s) <==> Proposal(models, d, tables, s) || Proposal(models, d, {t}, s)
    ensures forall s :: !(Proposal(models, d, tables, s) && Proposal(models, d, {t}, s))
  {
  }

  lemma OneTable(models: seq<ModelTable>, d: Drift, t: string, m: Option<ModelTable>, statements: seq<Statement>)
    requires WellFormed(models) && t in d.missingColumns
    requires m.Some? ==> m.value in models && m.value.name == t
                         && forall s :: s in statements <==> ColumnProposal(m.value, d.missingColumns[t], s)
    requires m.None? ==> statements == [] && forall k :: k in models ==> k.name != t
    ensures forall s :: s in statements <==> Proposal(models, d, {t}, s)
  {
  }

  ghost predicate ColumnProposal(m: ModelTable, names: set<string>, s: Statement) {
    exists c :: c in m.columns && c.name in names && s == AddColumn(m.name, c.name, ProposedType(c), None)
  }

  method FindTable(models: seq<ModelTable>, name: string) returns (r: Option<ModelTable>)
    ensures r.Some? ==> r.value in models && r.value.name == name
    ensures r.None? ==> forall m :: m in models ==> m.name != name
  {
    for i := 0 to |models|
      invariant forall k :: 0 <= k < i ==> models[k].name != name
    {
      if models[i].name == name {
        return Some(models[i]);
      }
    }
    return None;
  }

  method FindColumn(m: ModelTable, name: string) returns (r: Option<ModelColumn>)
    ensures r.Some? ==> r.value in m.columns && r.value.name == name
    ensures r.None? ==> forall c :: c in m.columns ==> c.name != name
  {
    for i := 0 to |m.columns|
      invariant forall k :: 0 <= k < i ==> m.columns[k].name != name
    {
      if m.columns[i].name == name {
        return Some(m.columns[i]);
      }
    }
    return None;
  }

  method TableProposal(m: ModelTable, columns: set<string>) returns (statements: seq<Statement>)
    requires forall i, j :: 0 <= i < j < |m.columns| ==> m.columns[i].name != m.columns[j].name
    ensures forall s :: s in statements <==> ColumnProposal(m, columns, s)
    ensures Distinct(statements)
  {
    statements := [];
    var names := columns;
    while names != {}
      invariant names <= columns
      invariant forall s :: s in statements <==> ColumnProposal(m, columns - names, s)
      invariant Distinct(statements)
      decreases |names|
    {
      var name :| name in names;
      ghost var before := columns - names;
      names := names - {name};
      assert columns - names == before + {name};
      var found := FindColumn(m, name);
      OneColumn(m, before, name, found);
      if found.Some? {
        statements := statements + [AddColumn(m.name, name, ProposedType(found.value), None)];
      }
    }
  }

  lemma OneColumn(m: ModelTable, names: set<string>, name: string, c: Option<ModelColumn>)
    requires forall i, j :: 0 <= i < j < |m.columns| ==> m.columns[i].name != m.columns[j].name
    requires c.Some? ==> c.value in m.columns && c.value.name == name
    requires c.None? ==> forall k :: k in m.columns ==> k.name != name
    requires name !in names
    ensures forall s :: ColumnProposal(m, names + {name}, s) <==>
                        ColumnProposal(m, names, s)
                            || (c.Some? && s == AddColumn(m.name, name, ProposedType(c.value), None))
    ensures c.Some? ==> !ColumnProposal(m, names, AddColumn(m.name, name, ProposedType(c.value), None))
  {
  }

  /* ---------- The migrator ---------- */

  lemma NextAddition(table: string, columns: seq<ModelColumn>, j: nat, t: Table, done: seq<Statement>)
    requires j < |columns|
    ensures done + Additions(table, columns[..j + 1], t)
            == var s := Addition(table, columns[j], t);
               if s == [] then done + Additions(table, columns[..j], t)
               else done + Additions(table, columns[..j], t) + [s[0]]
  {
    assert columns[..j + 1][..j] == columns[..j];
  }

  lemma NextRelaxation(table: string, columns: seq<ModelColumn>, j: nat, t: Table, done: seq<Statement>)
    requires j < |columns|
    ensures done + Relaxations(table, columns[..j + 1], t)
            == var s := Relaxation(table, columns[j], t);
               if s == [] then done + Relaxations(table, columns[..j], t)
               else done + Relaxations(table, columns[..j], t) + [s[0]]
  {
    assert columns[..j + 1][..j] == columns[..j];
  }

  class Database {
    var tables: Tables
    var log: seq<Statement>

    constructor (tables: Tables)
      ensures this.tables == tables && log == []
    {
      this.tables, log := tables, [];
    }

    /** Where a run that started from `db` with `earlier` logged has got to. */
    ghost predicate At(earlier: seq<Statement>, db: Tables, done: seq<Statement>, fails: nat -> bool)
      reads this
    {
      log == earlier + done && tables == Applied(db, done, fails, |earlier|)
    }

    /** One statement in a transaction of its own; an error is logged and forgotten. */
    method Attempt(s: Statement, fails: nat -> bool, ghost earlier: seq<Statement>, ghost db: Tables,
        ghost done: seq<Statement>)
      requires At(earlier, db, done, fails)
      modifies this
      ensures At(earlier, db, done + [s], fails)
    {
      AppliedOne(db, done, s, fails, |earlier|);
      if !fails(|log|) {
        tables := Executed(tables, s);
      }
      log := log + [s];
      assert log == earlier + (done + [s]);
    }

    /** `_apply_additive_column_migrations`; what a table looks like is read once, before it is changed. */
    method ApplyAdditiveColumnMigrations(models: seq<ModelTable>, readable: string -> bool, fails: nat -> bool)
      requires WellFormed(models)
      modifies this
      ensures log == old(log) + Plan(models, readable, old(tables))
      ensures tables == Applied(old(tables), Plan(models, readable, old(tables)), fails, |old(log)|)
    {
      ghost var earlier, db := log, tables;
      for i := 0 to |models|
        invariant At(earlier, db, Plan(models[..i], readable, db), fails)
      {
        assert models[..i + 1][..i] == models[..i];
        NotYetTouched(models, i, readable, db, fails, |earlier|);
        MigrateTable(models[i], readable, fails, earlier, db, Plan(models[..i], readable, db));
      }
      assert models[..|models|] == models;
    }

    method MigrateTable(m: ModelTable, readable: string -> bool, fails: nat -> bool,
                        ghost earlier: seq<Statement>, ghost db: Tables, ghost done: seq<Statement>)
      requires At(earlier, db, done, fails) && SameTable(db, tables, m.name)
      modifies this
      ensures At(earlier, db, done + TablePlan(m, readable, db), fails)
    {
      if m.name !in tables || !readable(m.name) {
        assert done + [] == done;
        return;
      }
      var actual := tables[m.name];
      ghost var added, relaxed := Additions(m.name, m.columns, actual), Relaxations(m.name, m.columns, actual);
      AddMissing(m, actual, fails, earlier, db, done);
      Relax(m, actual, fails, earlier, db, done + added);
      assert done + added + relaxed == done + (added + relaxed);
    }

    method AddMissing(m: ModelTable, actual: Table, fails: nat -> bool,
                      ghost earlier: seq<Statement>, ghost db: Tables, ghost done: seq<Statement>)
      requires At(earlier, db, done, fails)
      modifies this
      ensures At(earlier, db, done + Additions(m.name, m.columns, actual), fails)
    {
      assert done + [] == done;
      for j := 0 to |m.columns|
        invariant At(earlier, db, done + Additions(m.name, m.columns[..j], actual), fails)
      {
        var c := m.columns[j];
        ghost var before := Additions(m.name, m.columns[..j], actual);
        NextAddition(m.name, m.columns, j, actual, done);
        if c.name !in actual.columns && c.rendered.Some? {
          var s := AddColumn(m.name, c.name, c.rendered.value, UsableDefault(c));
          Attempt(s, fails, earlier, db, done + before);
        }
      }
      assert m.columns[..|m.columns|] == m.columns;
    }

    method Relax(m: ModelTable, actual: Table, fails: nat -> bool,
                 ghost earlier: seq<Statement>, ghost db: Tables, ghost done: seq<Statement>)
      requires At(earlier, db, done, fails)
      modifies this
      ensures At(earlier, db, done + Relaxations(m.name, m.columns, actual), fails)
    {
      assert done + [] == done;
      for j := 0 to |m.columns|
        invariant At(earlier, db, done + Relaxations(m.name, m.columns[..j], actual), fails)
      {
        var c := m.columns[j];
        ghost var before := Relaxations(m.name, m.columns[..j], actual);
        NextRelaxation(m.name, m.columns, j, actual, done);
        if c.name in actual.columns && c.nullable && actual.columns[c.name].notNull && !c.primary {
          Attempt(DropNotNull(m.name, c.name), fails, earlier, db, done + before);
        }
      }
      assert m.columns[..|m.columns|] == m.columns;
    }
  }

  ghost predicate SameTable(db: Tables, now: Tables, t: string) {
    (t in now <==> t in db) && (t in db ==> now[t] == db[t])
  }

  lemma {:induction false} AboutTable(table: string, columns: seq<ModelColumn>, t: Table)
    ensures forall s :: s in Additions(table, columns, t) || s in Relaxations(table, columns, t) ==> s.table == table
  {
    if columns != [] {
      AboutTable(table, columns[..|columns| - 1], t);
    }
  }

  lemma AboutTablePlan(m: ModelTable, readable: string -> bool, db: Tables)
    ensures forall s :: s in TablePlan(m, readable, db) ==> s.table == m.name
  {
    if m.name in db {
      AboutTable(m.name, m.columns, db[m.name]);
    }
  }

  /** The statements for the tables before one leave it as it was. */
  lemma NotYetTouched(models: seq<ModelTable>, i: nat, readable: string -> bool, db: Tables, fails: nat -> bool,
      first: nat)
    requires WellFormed(models) && i < |models|
    ensures SameTable(db, Applied(db, Plan(models[..i], readable, db), fails, first), models[i].name)
  {
    forall s | s in Plan(models[..i], readable, db)
      ensures s.table != models[i].name
    {
      var k := PlannedFor(models[..i], readable, db, s);
      AboutTablePlan(models[k], readable, db);
    }
    Elsewhere(db, Plan(models[..i], readable, db), fails, first, models[i].name);
  }

  lemma {:induction false} Elsewhere(db: Tables, statements: seq<Statement>, fails: nat -> bool, first: nat, t: string)
    requires forall s :: s in statements ==> s.table != t
    ensures SameTable(db, Applied(db, statements, fails, first), t)
  {
    if statements != [] {
      Elsewhere(db, statements[..|statements| - 1], fails, first, t);
    }
  }
}
