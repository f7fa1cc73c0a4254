/** What an insert that writes leaves in its row, in terms of the request as the
    call leaves it. */
module StoredRows {
  import opened GoTypes
  import opened Merge
  import opened MergeLaws
  import opened Decode
  import opened DecodeLaws
  import opened Paths
  import opened Rows
  import opened KeyedMap
  import opened Replay
  import opened Store
  import opened StoreRuns

  predicate IsScalar(typ: FType) {
    typ == TBool || typ == TInt || typ == TUint || typ == TString
  }

  /** y is what a field that held x holds after pb was given for it: a flag always
      what was given; a number or string what was given if that is not zero, else
      what it held, or the default if that was 0. Null stands for nothing given. */
  predicate Stores(g: FieldSpec, x: Value, pb: Pb, y: Value) {
    match g.typ
    case TBool => y == VBool(pb == PBool(true))
    case TInt =>
      y == if pb.PNumber? && pb.n != 0 then VInt(pb.n) else if x == VInt(0) then VInt(DefaultOf(g)) else x
    case TUint =>
      y == if pb.PNumber? && pb.n > 0 then VUint(pb.n)
           else if x == VUint(0) && DefaultOf(g) > 0 then VUint(DefaultOf(g)) else x
    case TString => y == if pb.PString? && pb.s != "" then VStr(pb.s) else x
    case _ => true
  }

  /** Decoding a value that fits and merging it stores it. */
  lemma BlendStores(zs: Zeros, g: FieldSpec, zero: Value, pb: Pb, x: Value, v: Value)
    requires FieldOk(zs, g) && IsScalar(g.typ) && ZeroValue(zs, g, zero) && ShapedValue(zs, g, x)
    requires Fits(g, pb) && Means(zs, g, zero, pb, v)
    ensures ShapedValue(zs, g, v) && Stores(g, x, pb, Blend(zs, g, x, v))
  {
  }

  lemma ZeroStores(zs: Zeros, g: FieldSpec, zero: Value, x: Value)
    requires FieldOk(zs, g) && IsScalar(g.typ) && ZeroValue(zs, g, zero) && ShapedValue(zs, g, x)
    ensures ShapedValue(zs, g, zero) && Stores(g, x, Null, Blend(zs, g, x, zero))
  {
  }

  /** What q gives for the field last: under its tag, or nothing. */
  ghost predicate Gives(q: Request, tag: string, pb: Pb)
    requires |q.tags| == |q.values|
  {
    if tag in q.tags then exists j :: IsLast(q.tags, j) && q.tags[j] == tag && q.values[j] == pb else pb == Null
  }

  /** In a request that can be encoded, what is decoded is what the request as the
      call leaves it gives. */
  lemma GivenIsDecoded(zs: Zeros, f: FieldSpec, ids: nat -> string, q: Request, tag: string, pb: Pb)
    requires TableOk(zs, f) && |q.tags| == |q.values| && Prepare(KeysOf(f).value, ids, q).ok
    requires AllKinds(Prepare(KeysOf(f).value, ids, q).data)
    ensures var p := Prepare(KeysOf(f).value, ids, q);
      |p.q.tags| == |p.q.values| &&
      (Gives(p.q, tag, pb) ==> if tag in p.data then p.data[tag] == pb else pb == Null)
  {
    var p := Prepare(KeysOf(f).value, ids, q);
    PrepareMeans(zs, f, ids, q);
    PreparedTags(zs, f, ids, q);
    if tag in p.q.tags && Gives(p.q, tag, pb) {
      var j :| IsLast(p.q.tags, j) && p.q.tags[j] == tag && p.q.values[j] == pb;
      PreparedLast(zs, f, ids, q, j);
      assert !HasKindless(p.data[tag]);
    }
  }

  /** The decoded request holds, for a scalar field, what was given. */
  lemma DecodedStores(zs: Zeros, f: FieldSpec, data: map<string, Pb>, k: nat, x: Value, pb: Pb)
    requires TableOk(zs, f) && k < |f.fields| && IsScalar(f.fields[k].typ) && ShapedValue(zs, f.fields[k], x)
    requires DecodeRequest(zs, f, data).Some?
    requires if f.fields[k].tagName in data then data[f.fields[k].tagName] == pb else pb == Null
    ensures var g, req := f.fields[k], DecodeRequest(zs, f, data).value;
      g.name in req && ShapedValue(zs, g, req[g.name]) && Stores(g, x, pb, Blend(zs, g, x, req[g.name]))
  {
    var g, zero := f.fields[k], ZeroOf(zs, f.ref.value);
    RequestIsShaped(zs, f, data);
    FieldsDecode(zs, f.fields, zero, data);
    assert ZeroValue(zs, g, zero[g.name]);
    if g.tagName in data {
      BlendStores(zs, g, zero[g.name], pb, x, DecodeRequest(zs, f, data).value[g.name]);
    } else {
      ZeroStores(zs, g, zero[g.name], x);
    }
  }

  /** Where insert puts its row: the row hit, or after all others. */
  function Target(zs: Zeros, f: FieldSpec, ids: nat -> string, q: Request, rows: seq<Value>): Option<nat>
    requires KeysOf(f).Some? && f.ref.Some?
  {
    match Seek(zs, f, ids, q)
    case None => None
    case Some(s) => Some(FirstHit(KeysOf(f).value.uks, s.ukv, rows))
  }

  /** What stood there: the row, or the zero struct. */
  function Before(zs: Zeros, f: FieldSpec, rows: seq<Value>, at: nat): Fields
    requires f.ref.Some?
  {
    if at < |rows| && IsStructLike(rows[at]) then Deref(zs, rows[at]) else ZeroOf(zs, f.ref.value)
  }

  lemma PlaceWrites(zs: Zeros, f: FieldSpec, ukv: map<string, Pb>, rows: seq<Value>, req: Fields, mode: Mode)
    requires TableOk(zs, f) && RowsShaped(zs, f, rows) && Shaped(zs, f.fields, req)
    requires Place(zs, f, KeysOf(f).value.uks, ukv, rows, req, mode).flush
    ensures var at, out := FirstHit(KeysOf(f).value.uks, ukv, rows), Place(zs, f, KeysOf(f).value.uks, ukv, rows, req, mode);
      var r := MergeFields(zs, f.fields, Before(zs, f, rows, at), req, UnSpec);
      && Shaped(zs, f.fields, Before(zs, f, rows, at)) && r.err == NoErr
      && out.rows == if at < |rows| then rows[at := VPtr(f.ref.value, r.dst)] else rows + [VPtr(f.ref.value, r.dst)]
  {
    var at := FirstHit(KeysOf(f).value.uks, ukv, rows);
    if at < |rows| {
      HitIsPointer(zs, f, ukv, rows, at);
      assert ShapedStruct(zs, f, rows[at]);
    } else {
      ZeroKey(zs, f);
    }
  }

  /** A call that writes changes one row, and each scalar field of that row stores
      what the request, as the call leaves it, gives for it. */
  lemma InsertStores(zs: Zeros, f: FieldSpec, ids: nat -> string, q: Request, mode: Mode, rows: seq<Value>, k: nat, pb: Pb)
    requires TableOk(zs, f) && RowsShaped(zs, f, rows) && k < |f.fields| && IsScalar(f.fields[k].typ)
    requires InsertRows(zs, f, KeysOf(f).value, ids, q, mode, rows).0.flush
    ensures var (out, q') := InsertRows(zs, f, KeysOf(f).value, ids, q, mode, rows);
      var g := f.fields[k];
      && |q'.tags| == |q'.values|
      && Target(zs, f, ids, q, rows).Some?
      && var at := Target(zs, f, ids, q, rows).value;
      && at < |out.rows| && out.rows[at].VPtr?
      && out.rows == (if at < |rows| then rows[at := out.rows[at]] else rows + [out.rows[at]])
      && g.name in out.rows[at].target && g.name in Before(zs, f, rows, at)
      && (Gives(q', g.tagName, pb) ==> Stores(g, Before(zs, f, rows, at)[g.name], pb, out.rows[at].target[g.name]))
  {
    InsertIsPlace(zs, f, ids, q, mode, rows);
    var p, s := Prepare(KeysOf(f).value, ids, q), Seek(zs, f, ids, q).value;
    SoughtKeys(zs, f, ids, q);
    PlaceWrites(zs, f, s.ukv, rows, s.req, mode);
    var old' := Before(zs, f, rows, FirstHit(KeysOf(f).value.uks, s.ukv, rows));
    FieldAfterMerge(zs, f.fields, old', s.req, UnSpec, k);
    GivenIsDecoded(zs, f, ids, q, f.fields[k].tagName, pb);
    if Gives(p.q, f.fields[k].tagName, pb) {
      DecodedStores(zs, f, p.data, k, old'[f.fields[k].name], pb);
    }
  }

  /** The same of a call on the instance, whether or not its flush is written. */
  lemma StepStores(c: Config, st: State, op: Op, k: nat, pb: Pb)
    requires Inv(c, st) && op.InsertOp? && RowsOf(st, op.table).Some?
    requires RunOnRows(c, st.tables[op.table], op, RowsOf(st, op.table).value).flush
    requires k < |st.tables[op.table].field.fields| && IsScalar(st.tables[op.table].field.fields[k].typ)
    ensures var f, rows := st.tables[op.table].field, RowsOf(st, op.table).value;
      var q', g := RequestAfter(c, st, op.table, op.ids, op.q, op.mode), f.fields[k];
      && Target(c.zeros, f, op.ids, op.q, rows).Some? && RowsOf(Step(c, st, op).0, op.table).Some?
      && var at, rows' := Target(c.zeros, f, op.ids, op.q, rows).value, RowsOf(Step(c, st, op).0, op.table).value;
      && at < |rows'| && rows'[at].VPtr? && |q'.tags| == |q'.values|
      && rows' == (if at < |rows| then rows[at := rows'[at]] else rows + [rows'[at]])
      && g.name in rows'[at].target && g.name in Before(c.zeros, f, rows, at)
      && (Gives(q', g.tagName, pb) ==> Stores(g, Before(c.zeros, f, rows, at)[g.name], pb, rows'[at].target[g.name]))
  {
    var t, rows := st.tables[op.table], RowsOf(st, op.table).value;
    assert Registered(c, op.table, t);
    RowsAreShaped(c.zeros, t.tags, c.fields, st.root);
    StepCommits(c, st, op, RunOnRows(c, t, op, rows));
    CommitHere(c, st, t.path, RunOnRows(c, t, op, rows), op.flush);
    InsertStores(c.zeros, t.field, op.ids, op.q, op.mode, rows, k, pb);
  }
}
