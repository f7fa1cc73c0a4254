/** The instance as a state machine: one object, its tables and the last flushed
    copy; what every step keeps, and what whole runs amount to. */
module Store {
  import opened GoTypes
  import opened Names
  import opened Merge
  import opened MergeLaws
  import opened Decode
  import opened Paths
  import opened Rows
  import opened KeyedMap
  import opened Query
  import opened Answers

  /** What an instance is made for and never changes. */
  datatype Config = Config(zeros: Zeros, fields: seq<FieldSpec>, persistent: bool)

  datatype State = State(root: Fields, tables: map<string, Table>, disk: Fields)

  /** A flush writes the object, or fails and leaves something on disk. */
  datatype Flushing = Written | Fails(left: Fields)

  datatype Op =
    | InsertOp(table: string, q: Request, mode: Mode, ids: nat -> string, flush: Flushing)
    | DeleteOp(table: string, conds: seq<Condition>, flush: Flushing)
    | QueryOp(table: string, filter: Option<Filter>, sort: Option<Sort>, limit: int)

  /** Stores the rows and flushes if asked to; a failed flush is reported but
      leaves the change in memory. */
  function Commit(c: Config, st: State, path: seq<string>, out: RowsOut, flush: Flushing): (State, Outcome)
    requires FindValue(path, st.root).Some?
  {
    var root := SetValue(path, st.root, out.rows);
    if !out.flush || !c.persistent then (st.(root := root), out.res)
    else
      match flush
      case Written => (st.(root := root, disk := root), out.res)
      case Fails(left) => (st.(root := root, disk := left), FlushFailed)
  }

  /** The rows of a table, if it is set up and can be reached. */
  function RowsOf(st: State, name: string): Option<seq<Value>> {
    if name in st.tables then FindValue(st.tables[name].path, st.root) else None
  }

  function KeysIn(t: Table): Keys
    requires KeysOf(t.field).Some?
  {
    KeysOf(t.field).value
  }

  function RunOnRows(c: Config, t: Table, op: Op, rows: seq<Value>): RowsOut
    requires KeysOf(t.field).Some? && t.field.ref.Some? && !op.QueryOp?
  {
    match op
    case InsertOp(_, q, mode, ids, _) => InsertRows(c.zeros, t.field, KeysIn(t), ids, q, mode, rows).0
    case DeleteOp(_, conds, _) => DeleteRows(KeysIn(t).pk, conds, rows)
  }

  /** Tables as TableSetup lets them be: with a primary key and pointer rows. */
  predicate Usable(tables: map<string, Table>) {
    forall name :: name in tables ==> KeysOf(tables[name].field).Some? && tables[name].field.ref.Some?
  }

  /** The rows a query finds, in storage order; a sort asked for puts them in
      some order that fits it. */
  function Answer(t: Table, op: Op, rows: seq<Value>): Outcome
    requires op.QueryOp?
  {
    match FilterTests(t.field.fields, op.filter)
    case None => Refused
    case Some(tests) => Found(Selected(t.field.fields, tests, SortField(op.sort), op.limit, rows))
  }

  /** One call of the instance. A query changes nothing. */
  function Step(c: Config, st: State, op: Op): (r: (State, Outcome))
    requires Usable(st.tables)
    ensures r.0.tables == st.tables
  {
    match RowsOf(st, op.table)
    case None => (st, Refused)
    case Some(rows) =>
      if op.QueryOp? then (st, Answer(st.tables[op.table], op, rows))
      else
        var t := st.tables[op.table];
        Commit(c, st, t.path, RunOnRows(c, t, op, rows), op.flush)
  }

  // ------------------------------------------------------------- the invariant

  ghost predicate Inv(c: Config, st: State) {
    && SpecOk(c.zeros, c.fields)
    && Shaped(c.zeros, c.fields, st.root)
    && Usable(st.tables)
    && forall name :: name in st.tables ==> Registered(c, name, st.tables[name])
  }

  ghost predicate Registered(c: Config, name: string, t: Table) {
    FindTable(t.tags, c.fields) == Some(t) && Join(t.tags) == name && TableOk(c.zeros, t.field)
  }

  /** The rows of every reachable table are the map ms holds for it. */
  ghost predicate Mapped(c: Config, st: State, ms: map<string, map<string, Fields>>)
    requires Usable(st.tables)
  {
    forall name :: MappedAt(c, st, ms, name)
  }

  ghost predicate MappedAt(c: Config, st: State, ms: map<string, map<string, Fields>>, name: string)
    requires Usable(st.tables)
  {
    && (name in ms <==> RowsOf(st, name).Some?)
    && (name in ms ==> Keyed(c.zeros, st.tables[name].field, RowsOf(st, name).value, ms[name]))
  }

  /** The primary key is the only unique field of every table. */
  ghost predicate OnePerTable(st: State)
    requires Usable(st.tables)
  {
    forall name :: name in st.tables ==> OneUnique(st.tables[name].field)
  }

  lemma CommitElsewhere(c: Config, st: State, p: seq<string>, out: RowsOut, flush: Flushing, name: string)
    requires FindValue(p, st.root).Some? && name in st.tables && Apart(p, st.tables[name].path)
    ensures Commit(c, st, p, out, flush).0.tables == st.tables
    ensures RowsOf(Commit(c, st, p, out, flush).0, name) == RowsOf(st, name)
  {
    GetAfterSetElsewhere(p, st.tables[name].path, st.root, out.rows);
  }

  lemma CommitHere(c: Config, st: State, p: seq<string>, out: RowsOut, flush: Flushing)
    requires FindValue(p, st.root).Some?
    ensures FindValue(p, Commit(c, st, p, out, flush).0.root) == Some(out.rows)
  {
    GetAfterSet(p, st.root, out.rows);
  }

  /** Two tables set up under different names lie apart. */
  lemma RegisteredApart(c: Config, st: State, name: string, other: string)
    requires Inv(c, st) && name in st.tables && other in st.tables && name != other
    ensures Apart(st.tables[name].path, st.tables[other].path)
  {
    var t, t' := st.tables[name], st.tables[other];
    assert Registered(c, name, t) && Registered(c, other, t');
    TablesApart(t.tags, t'.tags, c.fields);
  }

  /** A step on a table that is reached commits what it did to the rows. */
  lemma StepCommits(c: Config, st: State, op: Op, out: RowsOut)
    requires Usable(st.tables) && RowsOf(st, op.table).Some? && !op.QueryOp?
    requires out == RunOnRows(c, st.tables[op.table], op, RowsOf(st, op.table).value)
    ensures Step(c, st, op) == Commit(c, st, st.tables[op.table].path, out, op.flush)
  {
  }

  /** Steps on one table leave the rows of every other table alone. */
  lemma OtherTables(c: Config, st: State, op: Op, name: string)
    requires Inv(c, st) && name in st.tables && name != op.table
    ensures Step(c, st, op).0.tables == st.tables
    ensures RowsOf(Step(c, st, op).0, name) == RowsOf(st, name)
  {
    if RowsOf(st, op.table).Some? && !op.QueryOp? {
      var p, out := st.tables[op.table].path, RunOnRows(c, st.tables[op.table], op, RowsOf(st, op.table).value);
      StepCommits(c, st, op, out);
      RegisteredApart(c, st, op.table, name);
      CommitElsewhere(c, st, p, out, op.flush, name);
    }
  }

  /** Rows keep their shape under every operation, merges that fail included. */
  lemma RowsKeepShape(c: Config, t: Table, op: Op, rows: seq<Value>)
    requires TableOk(c.zeros, t.field) && !op.QueryOp? && RowsShaped(c.zeros, t.field, rows)
    ensures RowsShaped(c.zeros, t.field, RunOnRows(c, t, op, rows).rows)
  {
    var zs, f, k := c.zeros, t.field, KeysIn(t);
    match op
    case DeleteOp(_, conds, _) =>
    case InsertOp(_, q, mode, ids, _) =>
      if |q.tags| != 0 && |q.tags| == |q.values| {
        var p := Prepare(k, ids, q);
        if p.ok && DecodeRequest(zs, f, p.data).Some? {
          RequestIsShaped(zs, f, p.data);
          PlaceKeepsShape(zs, f, p.ukv, rows, DecodeRequest(zs, f, p.data).value, mode);
        }
      }
  }

  lemma PlaceKeepsShape(zs: Zeros, f: FieldSpec, ukv: map<string, Pb>, rows: seq<Value>, req: Fields, mode: Mode)
    requires TableOk(zs, f) && RowsShaped(zs, f, rows) && Shaped(zs, f.fields, req)
    ensures RowsShaped(zs, f, Place(zs, f, KeysOf(f).value.uks, ukv, rows, req, mode).rows)
  {
    var i := FirstHit(KeysOf(f).value.uks, ukv, rows);
    if i < |rows| {
      if mode == Upsert {
        assert ShapedStruct(zs, f, rows[i]);
        MergedRowIsShaped(zs, f, rows[i], req);
      }
    } else {
      ElementIsShaped(zs, f);
      MergedRowIsShaped(zs, f, VNil(f.ref.value), req);
    }
  }

  lemma MergedRowIsShaped(zs: Zeros, f: FieldSpec, x: Value, req: Fields)
    requires TableOk(zs, f) && ShapedStruct(zs, f, x) && Shaped(zs, f.fields, req)
    ensures ShapedStruct(zs, f, Rewrap(x, MergeFields(zs, f.fields, Deref(zs, x), req, UnSpec).dst))
  {
    KeepsShape(zs, f.fields, Deref(zs, x), req, UnSpec);
  }

  lemma CommitKeepsShape(c: Config, st: State, t: Table, out: RowsOut, flush: Flushing)
    requires SpecOk(c.zeros, c.fields) && Shaped(c.zeros, c.fields, st.root) && FindTable(t.tags, c.fields) == Some(t)
    requires FindValue(t.path, st.root).Some? && RowsShaped(c.zeros, t.field, out.rows)
    ensures Shaped(c.zeros, c.fields, Commit(c, st, t.path, out, flush).0.root)
  {
    SetKeepsShape(c.zeros, t.tags, c.fields, st.root, out.rows);
  }

  /** Every step keeps the invariant. */
  lemma StepKeepsInv(c: Config, st: State, op: Op)
    requires Inv(c, st)
    ensures Inv(c, Step(c, st, op).0)
  {
    if RowsOf(st, op.table).Some? && !op.QueryOp? {
      var t, rows := st.tables[op.table], RowsOf(st, op.table).value;
      assert Registered(c, op.table, t);
      RowsAreShaped(c.zeros, t.tags, c.fields, st.root);
      RowsKeepShape(c, t, op, rows);
      StepCommits(c, st, op, RunOnRows(c, t, op, rows));
      CommitKeepsShape(c, st, t, RunOnRows(c, t, op, rows), op.flush);
    }
  }

  /** A table can be reached exactly when no pointer lies on its path. */
  lemma ReachedIff(c: Config, st: State, name: string)
    requires Inv(c, st) && name in st.tables
    ensures RowsOf(st, name).Some? <==>
      FindTable(st.tables[name].tags, c.fields).Some? && ByValue(st.tables[name].tags, c.fields)
  {
    assert Registered(c, name, st.tables[name]);
    ReachedIffByValue(c.zeros, st.tables[name].tags, c.fields, st.root);
  }

  /** So a table that can be reached stays so, and one behind a pointer never is. */
  lemma StepKeepsReach(c: Config, st: State, op: Op, name: string)
    requires Inv(c, st) && name in st.tables
    ensures RowsOf(Step(c, st, op).0, name).Some? <==> RowsOf(st, name).Some?
  {
    StepKeepsInv(c, st, op);
    ReachedIff(c, st, name);
    ReachedIff(c, Step(c, st, op).0, name);
  }

  // --------------------------------------------------------- the map machine

  function MapOp(c: Config, t: Table, op: Op, m: map<string, Fields>): MapOut
    requires KeysOf(t.field).Some? && t.field.ref.Some? && !op.QueryOp?
  {
    match op
    case InsertOp(_, q, mode, ids, _) => InsertKey(c.zeros, t.field, ids, q, mode, m)
    case DeleteOp(_, conds, _) => RemoveKey(KeysIn(t).pk, conds, m)
  }

  /** The same call on maps instead of rows: the maps after it. */
  function MapStep(c: Config, tables: map<string, Table>, ms: map<string, map<string, Fields>>, op: Op)
    : map<string, map<string, Fields>>
    requires Usable(tables)
  {
    if op.table !in ms || op.table !in tables || op.QueryOp? then ms
    else ms[op.table := MapOp(c, tables[op.table], op, ms[op.table]).m]
  }

  /** What it may tell the caller. A map has no order, so a query with a limit
      has several answers; everything else has one outcome. */
  ghost predicate Agrees(c: Config, tables: map<string, Table>, ms: map<string, map<string, Fields>>, op: Op, res: Outcome)
    requires Usable(tables)
  {
    if op.table !in ms || op.table !in tables then res == Refused
    else if op.QueryOp? then AnswersOp(tables[op.table], op, ms[op.table], res)
    else
      var out := MapOp(c, tables[op.table], op, ms[op.table]);
      res == if out.flush && c.persistent && op.flush.Fails? then FlushFailed else out.res
  }

  ghost predicate AnswersOp(t: Table, op: Op, m: map<string, Fields>, res: Outcome)
    requires op.QueryOp?
  {
    match FilterTests(t.field.fields, op.filter)
    case None => res == Refused
    case Some(tests) =>
      res.Found? && AnswersFor(t.field.fields, tests, SortField(op.sort), op.limit, m, res.rows)
  }

  lemma RowsRefineMap(c: Config, t: Table, op: Op, rows: seq<Value>, m: map<string, Fields>)
    requires TableOk(c.zeros, t.field) && OneUnique(t.field) && !op.QueryOp? && Keyed(c.zeros, t.field, rows, m)
    ensures Refines(c.zeros, t.field, RunOnRows(c, t, op, rows), MapOp(c, t, op, m))
  {
    match op
    case InsertOp(_, q, mode, ids, _) => InsertRefines(c.zeros, t.field, ids, q, mode, rows, m);
    case DeleteOp(_, conds, _) => DeleteRefines(c.zeros, t.field, conds, rows, m);
  }

  lemma CommitMapped(c: Config, st: State, ms: map<string, map<string, Fields>>, name: string, out: RowsOut,
      abs: MapOut, flush: Flushing, other: string)
    requires Usable(st.tables) && Mapped(c, st, ms) && RowsOf(st, name).Some?
    requires Refines(c.zeros, st.tables[name].field, out, abs)
    requires other in st.tables && other != name ==> Apart(st.tables[name].path, st.tables[other].path)
    ensures MappedAt(c, Commit(c, st, st.tables[name].path, out, flush).0, ms[name := abs.m], other)
  {
    assert MappedAt(c, st, ms, other);
    if other == name {
      CommitHere(c, st, st.tables[name].path, out, flush);
    } else if other in st.tables {
      CommitElsewhere(c, st, st.tables[name].path, out, flush, other);
    }
  }

  lemma CommitMapsAll(c: Config, st: State, ms: map<string, map<string, Fields>>, name: string, out: RowsOut,
      abs: MapOut, flush: Flushing)
    requires Usable(st.tables) && Mapped(c, st, ms) && RowsOf(st, name).Some?
    requires Refines(c.zeros, st.tables[name].field, out, abs)
    requires forall other :: other in st.tables && other != name ==> Apart(st.tables[name].path, st.tables[other].path)
    ensures Mapped(c, Commit(c, st, st.tables[name].path, out, flush).0, ms[name := abs.m])
  {
    var st', ms' := Commit(c, st, st.tables[name].path, out, flush).0, ms[name := abs.m];
    forall other ensures MappedAt(c, st', ms', other) {
      CommitMapped(c, st, ms, name, out, abs, flush, other);
    }
  }

  lemma TableRefines(c: Config, st: State, ms: map<string, map<string, Fields>>, op: Op)
    requires Inv(c, st) && OnePerTable(st) && Mapped(c, st, ms) && RowsOf(st, op.table).Some? && !op.QueryOp?
    ensures op.table in ms
    ensures Refines(c.zeros, st.tables[op.table].field,
      RunOnRows(c, st.tables[op.table], op, RowsOf(st, op.table).value),
      MapOp(c, st.tables[op.table], op, ms[op.table]))
  {
    assert MappedAt(c, st, ms, op.table);
    assert Registered(c, op.table, st.tables[op.table]);
    RowsRefineMap(c, st.tables[op.table], op, RowsOf(st, op.table).value, ms[op.table]);
  }

  lemma StepRefinesFrom(c: Config, st: State, ms: map<string, map<string, Fields>>, op: Op, out: RowsOut, abs: MapOut)
    requires Usable(st.tables) && Mapped(c, st, ms) && RowsOf(st, op.table).Some? && !op.QueryOp? && op.table in ms
    requires out == RunOnRows(c, st.tables[op.table], op, RowsOf(st, op.table).value)
    requires abs == MapOp(c, st.tables[op.table], op, ms[op.table])
    requires Refines(c.zeros, st.tables[op.table].field, out, abs)
    requires forall other :: other in st.tables && other != op.table ==>
      Apart(st.tables[op.table].path, st.tables[other].path)
    ensures Mapped(c, Step(c, st, op).0, MapStep(c, st.tables, ms, op))
    ensures Agrees(c, st.tables, ms, op, Step(c, st, op).1)
  {
    StepCommits(c, st, op, out);
    CommitMapsAll(c, st, ms, op.table, out, abs, op.flush);
  }

  /** Each call does to the rows what the map machine does to the maps, with an
      outcome the maps allow. */
  lemma StepRefines(c: Config, st: State, ms: map<string, map<string, Fields>>, op: Op)
    requires Inv(c, st) && OnePerTable(st) && Mapped(c, st, ms)
    ensures Mapped(c, Step(c, st, op).0, MapStep(c, st.tables, ms, op))
    ensures Agrees(c, st.tables, ms, op, Step(c, st, op).1)
  {
    if RowsOf(st, op.table).Some? && !op.QueryOp? {
      TableRefines(c, st, ms, op);
      forall other | other in st.tables && other != op.table
        ensures Apart(st.tables[op.table].path, st.tables[other].path)
      {
        RegisteredApart(c, st, op.table, other);
      }
      StepRefinesFrom(c, st, ms, op, RunOnRows(c, st.tables[op.table], op, RowsOf(st, op.table).value),
        MapOp(c, st.tables[op.table], op, ms[op.table]));
    } else {
      IdleStepRefines(c, st, ms, op);
    }
  }

  lemma IdleStepRefines(c: Config, st: State, ms: map<string, map<string, Fields>>, op: Op)
    requires Inv(c, st) && Mapped(c, st, ms) && (RowsOf(st, op.table).None? || op.QueryOp?)
    ensures Mapped(c, Step(c, st, op).0, MapStep(c, st.tables, ms, op))
    ensures Agrees(c, st.tables, ms, op, Step(c, st, op).1)
  {
    assert MappedAt(c, st, ms, op.table);
    if RowsOf(st, op.table).Some? {
      assert Registered(c, op.table, st.tables[op.table]);
      AnswerAnswers(c, st.tables[op.table], op, RowsOf(st, op.table).value, ms[op.table]);
    }
  }

  lemma AnswerAnswers(c: Config, t: Table, op: Op, rows: seq<Value>, m: map<string, Fields>)
    requires TableOk(c.zeros, t.field) && op.QueryOp? && Keyed(c.zeros, t.field, rows, m)
    ensures AnswersOp(t, op, m, Answer(t, op, rows))
  {
    match FilterTests(t.field.fields, op.filter)
    case None =>
    case Some(tests) => SelectedAnswers(c.zeros, t.field, tests, SortField(op.sort), op.limit, rows, m);
  }

  // ---------------------------------------------------------------------- runs

  /** The state a run ends in, and the outcome of each call. */
  datatype Run = Run(last: State, outcomes: seq<Outcome>)

  function RunAll(c: Config, st: State, ops: seq<Op>): (r: Run)
    requires Usable(st.tables)
    ensures r.last.tables == st.tables && |r.outcomes| == |ops|
    decreases |ops|
  {
    if ops == [] then Run(st, [])
    else
      var rest := RunAll(c, Step(c, st, ops[0]).0, ops[1..]);
      Run(rest.last, [Step(c, st, ops[0]).1] + rest.outcomes)
  }

  function RunMaps(c: Config, tables: map<string, Table>, ms: map<string, map<string, Fields>>, ops: seq<Op>)
    : map<string, map<string, Fields>>
    requires Usable(tables)
    decreases |ops|
  {
    if ops == [] then ms else RunMaps(c, tables, MapStep(c, tables, ms, ops[0]), ops[1..])
  }

  lemma RunPeel(c: Config, st: State, ops: seq<Op>)
    requires Usable(st.tables) && ops != []
    ensures var rest := RunAll(c, Step(c, st, ops[0]).0, ops[1..]);
      RunAll(c, st, ops) == Run(rest.last, [Step(c, st, ops[0]).1] + rest.outcomes)
  {
  }

  /** The outcome of call n is that of one step from the state after n calls. */
  lemma {:induction false} OutcomeAt(c: Config, st: State, ops: seq<Op>, n: nat)
    requires Usable(st.tables) && n < |ops|
    ensures RunAll(c, st, ops).outcomes[n] == Step(c, RunAll(c, st, ops[..n]).last, ops[n]).1
    decreases n
  {
    RunPeel(c, st, ops);
    if n > 0 {
      RunPeel(c, st, ops[..n]);
      assert ops[..n][1..] == ops[1..][..n - 1];
      OutcomeAt(c, Step(c, st, ops[0]).0, ops[1..], n - 1);
    }
  }

  lemma {:induction false} RunMapped(c: Config, st: State, ms: map<string, map<string, Fields>>, ops: seq<Op>)
    requires Inv(c, st) && OnePerTable(st) && Mapped(c, st, ms)
    ensures Inv(c, RunAll(c, st, ops).last)
    ensures Mapped(c, RunAll(c, st, ops).last, RunMaps(c, st.tables, ms, ops))
    decreases |ops|
  {
    if ops != [] {
      StepRefines(c, st, ms, ops[0]);
      StepKeepsInv(c, st, ops[0]);
      RunMapped(c, Step(c, st, ops[0]).0, MapStep(c, st.tables, ms, ops[0]), ops[1..]);
    }
  }

  /** Every run over any number of tables, failing calls and failing flushes
      included, behaves as the run of the map machine: after n calls every
      table's rows have distinct keys and are its map, and call n has an outcome
      that these maps allow. */
  lemma RunRefines(c: Config, st: State, ms: map<string, map<string, Fields>>, ops: seq<Op>, n: nat)
    requires Inv(c, st) && OnePerTable(st) && Mapped(c, st, ms) && n <= |ops|
    ensures Inv(c, RunAll(c, st, ops[..n]).last)
    ensures Mapped(c, RunAll(c, st, ops[..n]).last, RunMaps(c, st.tables, ms, ops[..n]))
    ensures n < |ops| ==> Agrees(c, st.tables, RunMaps(c, st.tables, ms, ops[..n]), ops[n], RunAll(c, st, ops).outcomes[n])
  {
    RunMapped(c, st, ms, ops[..n]);
    if n < |ops| {
      OutcomeAt(c, st, ops, n);
      StepRefines(c, RunAll(c, st, ops[..n]).last, RunMaps(c, st.tables, ms, ops[..n]), ops[n]);
    }
  }

  /** The call asks a table for one key. */
  predicate AsksForKey(tables: map<string, Table>, op: Op, key: string)
    requires Usable(tables)
  {
    op.QueryOp? && op.limit >= 0 && op.table in tables && AsksKey(tables[op.table].field, op.filter, key)
  }

  /** Asking for a key finds the one row that the map's entry is, or none. */
  lemma QueryIsGet(c: Config, st: State, ms: map<string, map<string, Fields>>, op: Op, res: Outcome, key: string)
    requires Usable(st.tables) && Mapped(c, st, ms) && AsksForKey(st.tables, op, key)
    ensures Agrees(c, st.tables, ms, op, res) <==>
      res == if op.table !in ms then Refused
             else Found(Get(st.tables[op.table].field.fields, SortField(op.sort), ms[op.table], key))
  {
    assert MappedAt(c, st, ms, op.table);
    if op.table in ms && res.Found? {
      KeyAnswer(c.zeros, st.tables[op.table].field, RowsOf(st, op.table).value, ms[op.table], key, SortField(op.sort),
        op.limit, res.rows);
    }
  }

  /** So in every run a query by key is a get on the map of that moment. */
  lemma RunQueryIsGet(c: Config, st: State, ms: map<string, map<string, Fields>>, ops: seq<Op>, n: nat, key: string)
    requires Inv(c, st) && OnePerTable(st) && Mapped(c, st, ms) && n < |ops|
    requires AsksForKey(st.tables, ops[n], key)
    ensures var now := RunMaps(c, st.tables, ms, ops[..n]);
      RunAll(c, st, ops).outcomes[n] ==
        if ops[n].table !in now then Refused
        else Found(Get(st.tables[ops[n].table].field.fields, SortField(ops[n].sort), now[ops[n].table], key))
  {
    RunRefines(c, st, ms, ops, n);
    QueryIsGet(c, RunAll(c, st, ops[..n]).last, RunMaps(c, st.tables, ms, ops[..n]), ops[n],
      RunAll(c, st, ops).outcomes[n], key);
  }

  lemma StepKeepsBlank(c: Config, t: Table, op: Op, m: map<string, Fields>, key: string)
    requires KeysOf(t.field).Some? && t.field.ref.Some? && !op.QueryOp? && key in m && AllWhite(key)
    ensures key in MapOp(c, t, op, m).m
  {
    if op.DeleteOp? {
      NamedIsNotBlank(KeysIn(t).pk, op.conds);
    }
  }

  /** An entry with a blank key stays: no call can name it. */
  lemma {:induction false} BlankKeyStays(c: Config, tables: map<string, Table>, ms: map<string, map<string, Fields>>,
      ops: seq<Op>, name: string, key: string)
    requires Usable(tables) && name in ms && key in ms[name] && AllWhite(key)
    ensures var after := RunMaps(c, tables, ms, ops); name in after && key in after[name]
    decreases |ops|
  {
    if ops != [] {
      if !ops[0].QueryOp? && name in tables {
        StepKeepsBlank(c, tables[name], ops[0], ms[name], key);
      }
      BlankKeyStays(c, tables, MapStep(c, tables, ms, ops[0]), ops[1..], name, key);
    }
  }

  // ---------------------------------------------------------------- table setup

  /** Sets up the table whose path the pieces spell, once. */
  function Setup(c: Config, st: State, pieces: seq<string>): (State, bool) {
    var tags := LowerAll(pieces);
    if Join(tags) in st.tables then (st, true)
    else
      match FindTable(tags, c.fields)
      case None => (st, false)
      case Some(t) => (st.(tables := st.tables[Join(tags) := t]), true)
  }

  /** A table of pointers to structs with a string key and distinct tags. */
  ghost predicate TableDeclared(f: FieldSpec)
    requires KeysOf(f).Some?
  {
    f.ref.Some? && DistinctTags(f.fields) && KeysOf(f).value.pk.typ == TString
  }

  lemma FieldInOrder(zs: Zeros, fs: seq<FieldSpec>, f: FieldSpec)
    requires SpecOk(zs, fs) && f in fs
    ensures FieldOk(zs, f)
  {
  }

  lemma {:induction false} TableInOrder(zs: Zeros, fs: seq<FieldSpec>, tags: seq<string>)
    requires SpecOk(zs, fs) && FindTable(tags, fs).Some?
    ensures FieldOk(zs, FindTable(tags, fs).value.field)
    decreases |tags|
  {
    var f := FirstTag(fs, tags[0]).value;
    FieldInOrder(zs, fs, f);
    if |tags| > 1 {
      TableInOrder(zs, f.fields, tags[1..]);
    }
  }

  lemma NewTableKeepsInv(c: Config, st: State, t: Table)
    requires Inv(c, st) && FindTable(t.tags, c.fields) == Some(t) && TableOk(c.zeros, t.field)
    requires Join(t.tags) !in st.tables
    ensures Inv(c, st.(tables := st.tables[Join(t.tags) := t]))
  {
    var tables := st.tables[Join(t.tags) := t];
    assert Registered(c, Join(t.tags), t);
    forall name | name in tables ensures Registered(c, name, tables[name]) {
      if name != Join(t.tags) {
        assert Registered(c, name, st.tables[name]);
      }
    }
  }

  /** A new table keeps the invariant exactly if it is one the operations are
      made for. */
  lemma NewTableInvIff(c: Config, st: State, t: Table)
    requires Inv(c, st) && FindTable(t.tags, c.fields) == Some(t) && Join(t.tags) !in st.tables
    ensures Inv(c, st.(tables := st.tables[Join(t.tags) := t])) <==> TableDeclared(t.field)
  {
    TableInOrder(c.zeros, c.fields, t.tags);
    if TableDeclared(t.field) {
      NewTableKeepsInv(c, st, t);
    } else {
      assert !Registered(c, Join(t.tags), t);
      assert st.tables[Join(t.tags) := t][Join(t.tags)] == t;
    }
  }

  /** Setting up a table registers it under its name and changes nothing else.
      It keeps the invariant unless the table is new and not declared as the
      operations need it. */
  lemma SetupKeepsInv(c: Config, st: State, pieces: seq<string>)
    requires Inv(c, st)
    ensures var tags := LowerAll(pieces);
      var (st', ok) := Setup(c, st, pieces);
      && (Inv(c, st') <==>
            (Join(tags) in st.tables || FindTable(tags, c.fields).None? || TableDeclared(FindTable(tags, c.fields).value.field)))
      && st' == st.(tables := st'.tables)
      && (forall name :: name in st.tables ==> name in st'.tables && st'.tables[name] == st.tables[name])
      && (ok <==> Join(tags) in st'.tables)
  {
    var tags := LowerAll(pieces);
    if Join(tags) !in st.tables && FindTable(tags, c.fields).Some? {
      NewTableInvIff(c, st, FindTable(tags, c.fields).value);
    }
  }

  // ------------------------------------------------------- calls and setups mixed

  /** A call, or the setup of a table, perhaps in between. */
  datatype Event = Called(op: Op) | SetUp(pieces: seq<string>)

  /** A table that is set up is one the operations are made for. */
  ghost predicate SetupFits(c: Config, e: Event) {
    e.SetUp? && FindTable(LowerAll(e.pieces), c.fields).Some? ==>
      TableDeclared(FindTable(LowerAll(e.pieces), c.fields).value.field)
  }

  ghost function After(c: Config, st: State, e: Event): (st': State)
    requires Usable(st.tables) && SetupFits(c, e)
    ensures Usable(st'.tables)
  {
    match e
    case Called(op) => Step(c, st, op).0
    case SetUp(pieces) => Setup(c, st, pieces).0
  }

  ghost function AfterAll(c: Config, st: State, es: seq<Event>): State
    requires Usable(st.tables) && forall i :: 0 <= i < |es| ==> SetupFits(c, es[i])
    decreases |es|
  {
    if es == [] then st else AfterAll(c, After(c, st, es[0]), es[1..])
  }

  lemma EventKeepsInv(c: Config, st: State, e: Event)
    requires Inv(c, st) && SetupFits(c, e)
    ensures Inv(c, After(c, st, e))
    ensures forall name :: name in st.tables ==>
      name in After(c, st, e).tables && After(c, st, e).tables[name] == st.tables[name]
    ensures forall name :: name in st.tables ==> (RowsOf(After(c, st, e), name).Some? <==> RowsOf(st, name).Some?)
  {
    match e
    case SetUp(pieces) => SetupKeepsInv(c, st, pieces);
    case Called(op) =>
      StepKeepsInv(c, st, op);
      forall name | name in st.tables ensures RowsOf(Step(c, st, op).0, name).Some? <==> RowsOf(st, name).Some? {
        StepKeepsReach(c, st, op, name);
      }
  }

  /** Through every sequence of calls and setups, over tables with any number of
      unique fields, the invariant holds, and a table once set up stays as it is
      and is reached exactly if it was reached at first. */
  lemma {:induction false} RunKeepsInv(c: Config, st: State, es: seq<Event>)
    requires Inv(c, st) && forall i :: 0 <= i < |es| ==> SetupFits(c, es[i])
    ensures var last := AfterAll(c, st, es);
      && Inv(c, last)
      && (forall name :: name in st.tables ==> name in last.tables && last.tables[name] == st.tables[name])
      && (forall name :: name in st.tables ==> (RowsOf(last, name).Some? <==> RowsOf(st, name).Some?))
    decreases |es|
  {
    if es != [] {
      EventKeepsInv(c, st, es[0]);
      RunKeepsInv(c, After(c, st, es[0]), es[1..]);
    }
  }
}
