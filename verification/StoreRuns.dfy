/** Sending a request again, and unique fields over whole runs, on the instance. */
module StoreRuns {
  import opened GoTypes
  import opened Paths
  import opened Rows
  import opened KeyedMap
  import opened UniqueKeys
  import opened Replay
  import opened Store

  /** The request object after the call: with the keys generated into it if the
      call got as far as reading it. */
  function RequestAfter(c: Config, st: State, name: string, ids: nat -> string, q: Request, mode: Mode): Request
    requires Usable(st.tables)
  {
    match RowsOf(st, name)
    case None => q
    case Some(rows) => InsertRows(c.zeros, st.tables[name].field, KeysIn(st.tables[name]), ids, q, mode, rows).1
  }

  /** A request without fields, or with lists of different length, is refused. */
  lemma MalformedIsRefused(c: Config, st: State, op: Op)
    requires Usable(st.tables) && op.InsertOp? && (|op.q.tags| == 0 || |op.q.tags| != |op.q.values|)
    ensures Step(c, st, op) == (st, Refused) && RequestAfter(c, st, op.table, op.ids, op.q, op.mode) == op.q
  {
    if RowsOf(st, op.table).Some? {
      SetSame(st.tables[op.table].path, st.root);
    }
  }

  /** A call whose rows come out as they were leaves the object as it was. */
  lemma CommitSame(c: Config, st: State, p: seq<string>, out: RowsOut)
    requires FindValue(p, st.root) == Some(out.rows)
    ensures Commit(c, st, p, out, Written).0.root == st.root
    ensures Commit(c, st, p, out, Written).1 == out.res
  {
    SetSame(p, st.root);
  }

  lemma DoneRows(c: Config, st: State, op: Op)
    requires Usable(st.tables) && Step(c, st, op).1 == Done && !op.QueryOp?
    ensures RowsOf(st, op.table).Some?
    ensures RunOnRows(c, st.tables[op.table], op, RowsOf(st, op.table).value).res == Done
    ensures RowsOf(Step(c, st, op).0, op.table)
         == Some(RunOnRows(c, st.tables[op.table], op, RowsOf(st, op.table).value).rows)
  {
    var out := RunOnRows(c, st.tables[op.table], op, RowsOf(st, op.table).value);
    StepCommits(c, st, op, out);
    CommitHere(c, st, st.tables[op.table].path, out, op.flush);
  }

  /** After an Igsert or Upsert that succeeded, the request object as the call
      left it can be sent again: with its flush written it succeeds and leaves
      the whole object as it is. */
  lemma ReplayStep(c: Config, st: State, table: string, q: Request, mode: Mode, ids: nat -> string,
      ids': nat -> string, flush: Flushing)
    requires Inv(c, st) && mode != Raw && Step(c, st, InsertOp(table, q, mode, ids, flush)).1 == Done
    ensures var st' := Step(c, st, InsertOp(table, q, mode, ids, flush)).0;
      var q' := RequestAfter(c, st, table, ids, q, mode);
      var (again, res) := Step(c, st', InsertOp(table, q', mode, ids', Written));
      again.root == st'.root && res == Done && RequestAfter(c, st', table, ids', q', mode) == q'
  {
    var op := InsertOp(table, q, mode, ids, flush);
    var st', q' := Step(c, st, op).0, RequestAfter(c, st, table, ids, q, mode);
    DoneRows(c, st, op);
    var t, rows := st.tables[table], RowsOf(st, table).value;
    assert Registered(c, table, t);
    RowsAreShaped(c.zeros, t.tags, c.fields, st.root);
    ReplayChangesNothing(c.zeros, t.field, ids, ids', q, mode, rows);
    var op' := InsertOp(table, q', mode, ids', Written);
    var out := RunOnRows(c, t, op', RowsOf(st', table).value);
    StepCommits(c, st', op', out);
    CommitSame(c, st', t.path, out);
  }

  // ------------------------------------------------------- several unique fields

  ghost predicate UnsharedIn(st: State, name: string)
    requires Usable(st.tables)
  {
    RowsOf(st, name).Some? ==> AllUnshared(KeysIn(st.tables[name]).uks, RowsOf(st, name).value)
  }

  /** No two rows of a table share a non-empty value of a unique field. */
  ghost predicate StoreUnshared(st: State)
    requires Usable(st.tables)
  {
    forall name :: name in st.tables ==> UnsharedIn(st, name)
  }

  /** The call is an Upsert into a row while another one competes with it. */
  ghost predicate Contested(c: Config, st: State, op: Op)
    requires Usable(st.tables)
  {
    op.InsertOp? && op.mode == Upsert && RowsOf(st, op.table).Some? &&
    Competes(c.zeros, st.tables[op.table].field, op.ids, op.q, RowsOf(st, op.table).value)
  }

  lemma RowsUnsharedIff(c: Config, t: Table, op: Op, rows: seq<Value>)
    requires TableOk(c.zeros, t.field) && !op.QueryOp?
    requires RowsShaped(c.zeros, t.field, rows) && AllUnshared(KeysIn(t).uks, rows)
    ensures AllUnshared(KeysIn(t).uks, RunOnRows(c, t, op, rows).rows)
       <==> !(op.InsertOp? && op.mode == Upsert && Competes(c.zeros, t.field, op.ids, op.q, rows))
  {
    match op
    case InsertOp(_, q, mode, ids, _) => InsertKeepsUnshared(c.zeros, t.field, ids, q, mode, rows);
    case DeleteOp(_, conds, _) => DeleteKeepsUnshared(KeysIn(t).uks, KeysIn(t).pk, conds, rows);
  }

  lemma OwnTableUnsharedIff(c: Config, st: State, op: Op)
    requires Inv(c, st) && op.table in st.tables && UnsharedIn(st, op.table)
    requires RowsOf(st, op.table).Some? && !op.QueryOp?
    ensures UnsharedIn(Step(c, st, op).0, op.table) <==> !Contested(c, st, op)
  {
    var t, rows := st.tables[op.table], RowsOf(st, op.table).value;
    assert Registered(c, op.table, t);
    RowsAreShaped(c.zeros, t.tags, c.fields, st.root);
    RowsUnsharedIff(c, t, op, rows);
    StepCommits(c, st, op, RunOnRows(c, t, op, rows));
    CommitHere(c, st, t.path, RunOnRows(c, t, op, rows), op.flush);
  }

  /** A call keeps unique values unshared in all tables, whatever its outcome,
      exactly if it is not contested. */
  lemma StepKeepsUnshared(c: Config, st: State, op: Op)
    requires Inv(c, st) && StoreUnshared(st)
    ensures StoreUnshared(Step(c, st, op).0) <==> !Contested(c, st, op)
  {
    if RowsOf(st, op.table).Some? && !op.QueryOp? {
      OwnTableUnsharedIff(c, st, op);
      forall name | name in st.tables && name != op.table ensures UnsharedIn(Step(c, st, op).0, name) {
        assert UnsharedIn(st, name);
        OtherTables(c, st, op, name);
      }
    }
  }

  /** No call of the run is contested. */
  ghost predicate Uncontested(c: Config, st: State, ops: seq<Op>)
    requires Usable(st.tables)
    decreases |ops|
  {
    ops != [] ==> !Contested(c, st, ops[0]) && Uncontested(c, Step(c, st, ops[0]).0, ops[1..])
  }

  /** Unique values are unshared now and after every call. */
  ghost predicate StaysUnshared(c: Config, st: State, ops: seq<Op>)
    requires Usable(st.tables)
    decreases |ops|
  {
    StoreUnshared(st) && (ops != [] ==> StaysUnshared(c, Step(c, st, ops[0]).0, ops[1..]))
  }

  /** A run keeps them unshared throughout exactly if no call is contested. */
  lemma {:induction false} RunUnsharedIff(c: Config, st: State, ops: seq<Op>)
    requires Inv(c, st) && StoreUnshared(st)
    ensures StaysUnshared(c, st, ops) <==> Uncontested(c, st, ops)
    decreases |ops|
  {
    if ops != [] {
      StepKeepsUnshared(c, st, ops[0]);
      StepKeepsInv(c, st, ops[0]);
      if StoreUnshared(Step(c, st, ops[0]).0) {
        RunUnsharedIff(c, Step(c, st, ops[0]).0, ops[1..]);
      }
    }
  }

  /** So a run without contested Upserts keeps them unshared to the end. */
  lemma RunKeepsUnshared(c: Config, st: State, ops: seq<Op>)
    requires Inv(c, st) && StoreUnshared(st) && Uncontested(c, st, ops)
    ensures StoreUnshared(RunAll(c, st, ops).last)
  {
    RunUnsharedIff(c, st, ops);
    UnsharedAtEnd(c, st, ops);
  }

  lemma {:induction false} UnsharedAtEnd(c: Config, st: State, ops: seq<Op>)
    requires Usable(st.tables) && StaysUnshared(c, st, ops)
    ensures StoreUnshared(RunAll(c, st, ops).last)
    decreases |ops|
  {
    if ops != [] {
      UnsharedAtEnd(c, Step(c, st, ops[0]).0, ops[1..]);
    }
  }
}
