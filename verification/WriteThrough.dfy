/** When the flushed copy is the object in memory: after every call, unless the
    merge of an Upsert fails after it wrote to its row. */
module WriteThrough {
  import opened GoTypes
  import opened Merge
  import opened MergeLaws
  import opened Paths
  import opened Rows
  import opened KeyedMap
  import opened Store

  /** The disk holds what memory holds. */
  predicate Synced(c: Config, st: State) {
    c.persistent ==> st.disk == st.root
  }

  /** The row that an Upsert with this request would merge into. */
  predicate HitsRow(zs: Zeros, f: FieldSpec, ids: nat -> string, q: Request, rows: seq<Value>)
    requires KeysOf(f).Some? && f.ref.Some?
  {
    Seek(zs, f, ids, q).Some? && FirstHit(KeysOf(f).value.uks, Seek(zs, f, ids, q).value.ukv, rows) < |rows|
  }

  function RowHit(zs: Zeros, f: FieldSpec, ids: nat -> string, q: Request, rows: seq<Value>): (x: Value)
    requires KeysOf(f).Some? && f.ref.Some? && HitsRow(zs, f, ids, q, rows)
    ensures IsStructLike(x)
  {
    rows[FirstHit(KeysOf(f).value.uks, Seek(zs, f, ids, q).value.ukv, rows)]
  }

  /** The request holds a value the spec refuses, and the merge reaches it only
      after it changed the row. */
  ghost predicate MergesHalf(zs: Zeros, f: FieldSpec, ids: nat -> string, q: Request, rows: seq<Value>)
    requires KeysOf(f).Some? && f.ref.Some?
  {
    HitsRow(zs, f, ids, q, rows) &&
    var d, req := Deref(zs, RowHit(zs, f, ids, q, rows)), Seek(zs, f, ids, q).value.req;
    Shaped(zs, f.fields, d) && Shaped(zs, f.fields, req) && StopsHalf(zs, f.fields, d, req)
  }

  ghost predicate HalfMerged(c: Config, st: State, op: Op)
    requires Usable(st.tables)
  {
    op.InsertOp? && op.mode == Upsert && RowsOf(st, op.table).Some? &&
    MergesHalf(c.zeros, st.tables[op.table].field, op.ids, op.q, RowsOf(st, op.table).value)
  }

  /** Rows change without a flush exactly when an Upsert merges half. */
  lemma PlaceUnflushedIff(zs: Zeros, f: FieldSpec, ukv: map<string, Pb>, rows: seq<Value>, req: Fields, mode: Mode)
    requires TableOk(zs, f) && RowsShaped(zs, f, rows) && Shaped(zs, f.fields, req)
    ensures var i, out := FirstHit(KeysOf(f).value.uks, ukv, rows), Place(zs, f, KeysOf(f).value.uks, ukv, rows, req, mode);
      && (out.flush ==> out.res == Done)
      && (i < |rows| ==> IsStructLike(rows[i]) && Shaped(zs, f.fields, Deref(zs, rows[i])))
      && ((!out.flush && out.rows != rows) <==>
            (mode == Upsert && i < |rows| && StopsHalf(zs, f.fields, Deref(zs, rows[i]), req)))
  {
    var i := FirstHit(KeysOf(f).value.uks, ukv, rows);
    if i < |rows| {
      HitIsPointer(zs, f, ukv, rows, i);
      assert ShapedStruct(zs, f, rows[i]);
      MergeChangesIff(zs, f.fields, rows[i].target, req);
      ReplacedIff(rows, i, MergeFields(zs, f.fields, rows[i].target, req, UnSpec).dst);
    }
  }

  lemma MergeChangesIff(zs: Zeros, fs: seq<FieldSpec>, d: Fields, req: Fields)
    requires SpecOk(zs, fs) && Shaped(zs, fs, d) && Shaped(zs, fs, req)
    ensures var r := MergeFields(zs, fs, d, req, UnSpec);
      StopsHalf(zs, fs, d, req) <==> r.err != NoErr && r.dst != d
  {
    SucceedsIffAccepted(zs, fs, d, req, UnSpec);
    if !Accepts(fs, req) {
      StopsHalfIff(zs, fs, d, req, UnSpec);
    }
  }

  lemma ReplacedIff(rows: seq<Value>, i: nat, after: Fields)
    requires i < |rows| && rows[i].VPtr?
    ensures rows[i := Rewrap(rows[i], after)] != rows <==> after != rows[i].target
  {
    assert rows[i := Rewrap(rows[i], after)][i] == VPtr(rows[i].rt, after);
  }

  lemma RowsUnflushedIff(c: Config, t: Table, op: Op, rows: seq<Value>)
    requires TableOk(c.zeros, t.field) && RowsShaped(c.zeros, t.field, rows) && !op.QueryOp?
    ensures var out := RunOnRows(c, t, op, rows);
      && (out.flush ==> out.res == Done)
      && (!out.flush && out.rows != rows <==>
            op.InsertOp? && op.mode == Upsert && MergesHalf(c.zeros, t.field, op.ids, op.q, rows))
  {
    match op
    case DeleteOp(_, conds, _) =>
    case InsertOp(_, q, mode, ids, _) =>
      InsertIsPlace(c.zeros, t.field, ids, q, mode, rows);
      if Seek(c.zeros, t.field, ids, q).Some? {
        var s := Seek(c.zeros, t.field, ids, q).value;
        SoughtKeys(c.zeros, t.field, ids, q);
        PlaceUnflushedIff(c.zeros, t.field, s.ukv, rows, s.req, mode);
      }
  }

  lemma CommitSyncedIff(c: Config, st: State, p: seq<string>, out: RowsOut)
    requires FindValue(p, st.root).Some? && c.persistent && Synced(c, st)
    ensures Synced(c, Commit(c, st, p, out, Written).0) <==> out.flush || out.rows == FindValue(p, st.root).value
  {
    SetSame(p, st.root);
    GetAfterSet(p, st.root, out.rows);
  }

  /** If its flush, should there be one, is written, a call on a synced instance
      leaves it synced exactly unless it is an Upsert that merges half. */
  lemma StepKeepsSynced(c: Config, st: State, op: Op)
    requires Inv(c, st) && c.persistent && Synced(c, st) && (op.QueryOp? || op.flush == Written)
    ensures Synced(c, Step(c, st, op).0) <==> !HalfMerged(c, st, op)
  {
    if RowsOf(st, op.table).Some? && !op.QueryOp? {
      var t, rows := st.tables[op.table], RowsOf(st, op.table).value;
      assert Registered(c, op.table, t);
      RowsAreShaped(c.zeros, t.tags, c.fields, st.root);
      RowsUnflushedIff(c, t, op, rows);
      StepCommits(c, st, op, RunOnRows(c, t, op, rows));
      CommitSyncedIff(c, st, t.path, RunOnRows(c, t, op, rows));
    }
  }

  // ---------------------------------------------------------------------- runs

  predicate AllWritten(ops: seq<Op>) {
    forall i :: 0 <= i < |ops| ==> ops[i].QueryOp? || ops[i].flush == Written
  }

  /** Disk and memory agree now and after every call. */
  ghost predicate StaysSynced(c: Config, st: State, ops: seq<Op>)
    requires Usable(st.tables)
    decreases |ops|
  {
    Synced(c, st) && (ops != [] ==> StaysSynced(c, Step(c, st, ops[0]).0, ops[1..]))
  }

  ghost predicate SomeHalfMerged(c: Config, st: State, ops: seq<Op>)
    requires Usable(st.tables)
    decreases |ops|
  {
    ops != [] && (HalfMerged(c, st, ops[0]) || SomeHalfMerged(c, Step(c, st, ops[0]).0, ops[1..]))
  }

  /** Through a run whose flushes are written, disk and memory agree after every
      call exactly if none of its Upserts merges half. */
  lemma {:induction false} RunSyncedIff(c: Config, st: State, ops: seq<Op>)
    requires Inv(c, st) && c.persistent && Synced(c, st) && AllWritten(ops)
    ensures StaysSynced(c, st, ops) <==> !SomeHalfMerged(c, st, ops)
    decreases |ops|
  {
    if ops != [] {
      StepKeepsSynced(c, st, ops[0]);
      StepKeepsInv(c, st, ops[0]);
      if Synced(c, Step(c, st, ops[0]).0) {
        RunSyncedIff(c, Step(c, st, ops[0]).0, ops[1..]);
      }
    }
  }

  /** The call is no Upsert that hits a row with a request the spec refuses. */
  ghost predicate Acceptable(c: Config, st: State, op: Op)
    requires Usable(st.tables)
  {
    op.InsertOp? && op.mode == Upsert && RowsOf(st, op.table).Some? ==>
      var f, rows := st.tables[op.table].field, RowsOf(st, op.table).value;
      HitsRow(c.zeros, f, op.ids, op.q, rows) ==> Accepts(f.fields, Seek(c.zeros, f, op.ids, op.q).value.req)
  }

  ghost predicate AllAcceptable(c: Config, st: State, ops: seq<Op>)
    requires Usable(st.tables)
    decreases |ops|
  {
    ops != [] ==> Acceptable(c, st, ops[0]) && AllAcceptable(c, Step(c, st, ops[0]).0, ops[1..])
  }

  lemma {:induction false} AcceptableMergesWhole(c: Config, st: State, ops: seq<Op>)
    requires Usable(st.tables) && AllAcceptable(c, st, ops)
    ensures !SomeHalfMerged(c, st, ops)
    decreases |ops|
  {
    if ops != [] {
      AcceptableMergesWhole(c, Step(c, st, ops[0]).0, ops[1..]);
    }
  }

  /** In particular if every Upsert that hits a row carries a request the spec
      accepts: disk and memory then agree after every n calls. */
  lemma {:induction false} RunKeepsSynced(c: Config, st: State, ops: seq<Op>, n: nat)
    requires Inv(c, st) && c.persistent && Synced(c, st) && AllWritten(ops) && AllAcceptable(c, st, ops) && n <= |ops|
    ensures Synced(c, RunAll(c, st, ops[..n]).last)
  {
    AcceptableMergesWhole(c, st, ops);
    RunSyncedIff(c, st, ops);
    SyncedAfter(c, st, ops, n);
  }

  lemma {:induction false} SyncedAfter(c: Config, st: State, ops: seq<Op>, n: nat)
    requires Usable(st.tables) && StaysSynced(c, st, ops) && n <= |ops|
    ensures Synced(c, RunAll(c, st, ops[..n]).last)
    decreases n
  {
    if n > 0 {
      assert ops[..n][1..] == ops[1..][..n - 1];
      SyncedAfter(c, Step(c, st, ops[0]).0, ops[1..], n - 1);
    }
  }
}
