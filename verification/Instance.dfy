/** The instance as it runs: loops over request fields, conditions and rows, one
    Merger per merge, and a flush at the end of every change. */
module InstanceCode {
  import opened GoTypes
  import opened Names
  import opened Merge
  import opened MergerCode
  import opened Decode
  import opened Paths
  import opened Rows
  import opened Query
  import opened Store
  import opened StoreRuns

  /** An insert request; the code generates keys into it. */
  class DataInsert {
    var tableName: string
    var tags: seq<string>
    var values: seq<Pb>

    constructor (tableName: string, tags: seq<string>, values: seq<Pb>)
      ensures this.tableName == tableName && this.tags == tags && this.values == values
    {
      this.tableName, this.tags, this.values := tableName, tags, values;
    }

    function AsRequest(): Request
      reads this
    {
      Request(tags, values)
    }
  }

  class Instance {
    const config: Config
    var root: Fields
    var tables: map<string, Table>
    var disk: Fields

    constructor (config: Config, root: Fields, disk: Fields)
      ensures this.config == config && Current() == State(root, map[], disk)
    {
      this.config, this.root, this.disk := config, root, disk;
      tables := map[];
    }

    function Current(): State
      reads this
    {
      State(root, tables, disk)
    }

    /** What the flush hook does; `how` says how the write will turn out. */
    method Flush(how: Flushing) returns (ok: bool)
      modifies this`disk
      ensures ok == (!config.persistent || how == Written)
      ensures disk == if !config.persistent then old(disk) else if how == Written then root else how.left
    {
      if !config.persistent {
        return true;
      }
      match how
      case Written =>
        disk := root;
        ok := true;
      case Fails(left) =>
        disk := left;
        ok := false;
    }

    /** Counts the unique fields on which a row has the requested value, in
        whatever order the map is walked. */
    method CountKeyHits(uks: map<string, FieldSpec>, ukv: map<string, Pb>, x: Value) returns (hits: nat)
      ensures hits == 0 <==> !Hit(uks, ukv, x)
    {
      hits := 0;
      var todo := uks.Keys;
      while todo != {}
        invariant todo <= uks.Keys
        invariant hits == 0 <==> forall t :: t in uks.Keys - todo ==> !MatchesOn(uks, ukv, x, t)
        decreases |todo|
      {
        var t :| t in todo;
        todo := todo - {t};
        if t in ukv && Text(x, uks[t].name) == Some(StringOf(ukv[t])) {
          hits := hits + 1;
          assert MatchesOn(uks, ukv, x, t);
        }
      }
    }

    /** The scan for the first row hit. */
    method FindHit(uks: map<string, FieldSpec>, ukv: map<string, Pb>, rows: seq<Value>) returns (i: nat)
      ensures i == FirstHit(uks, ukv, rows)
    {
      i := 0;
      while i < |rows|
        invariant i <= |rows|
        invariant forall j :: 0 <= j < i ==> !Hit(uks, ukv, rows[j])
      {
        var hits := CountKeyHits(uks, ukv, rows[i]);
        if hits > 0 {
          return;
        }
        i := i + 1;
      }
    }

    /** The first loop of insert: it fills the data and the key map and puts
        generated keys into the request. */
    method ReadRequest(q: DataInsert, uks: map<string, FieldSpec>, ids: nat -> string)
      returns (data: map<string, Pb>, ukv: map<string, Pb>, ok: bool)
      requires |q.tags| == |q.values|
      modifies q`values
      ensures var s := ScanRequest(uks, ids, old(q.AsRequest()), |q.tags|);
        q.values == s.values && data == s.data && ukv == s.ukv && ok == s.ok
    {
      data, ukv, ok := map[], map[], true;
      ghost var q0 := q.AsRequest();
      for i := 0 to |q.tags|
        invariant |q.values| == |q.tags|
        invariant ScanRequest(uks, ids, q0, i) == Scan(q.values, data, ukv, true)
      {
        var tag := q.tags[i];
        data := data[tag := q.values[i]];
        assert ScanRequest(uks, ids, q0, i + 1) == ScanStep(uks, ids, q0.tags, ScanRequest(uks, ids, q0, i), i);
        if tag in uks {
          if uks[tag].typ != TString {
            ScanStopped(uks, ids, q0, i + 1, |q.tags|);
            return data, ukv, false;
          }
          if q.values[i] == Kindless {
            if !HasGenerator(uks[tag]) {
              ScanStopped(uks, ids, q0, i + 1, |q.tags|);
              return data, ukv, false;
            }
            q.values := q.values[i := PString(ids(i))];
          }
          ukv := ukv[tag := q.values[i]];
        }
      }
    }

    /** Once a scan has stopped it stays as it is. */
    static lemma {:induction false} ScanStopped(uks: map<string, FieldSpec>, ids: nat -> string, q: Request, n: nat, m: nat)
      requires n <= m <= |q.tags| == |q.values| && !ScanRequest(uks, ids, q, n).ok
      ensures ScanRequest(uks, ids, q, m) == ScanRequest(uks, ids, q, n)
      decreases m
    {
      if n < m {
        ScanStopped(uks, ids, q, n, m - 1);
      }
    }

    /** Both loops of insert over the request. */
    method PrepareRequest(q: DataInsert, k: Keys, ids: nat -> string)
      returns (data: map<string, Pb>, ukv: map<string, Pb>, ok: bool)
      requires |q.tags| == |q.values|
      modifies q`tags, q`values
      ensures Prepare(k, ids, old(q.AsRequest())) == Prepared(q.AsRequest(), data, ukv, ok)
    {
      data, ukv, ok := ReadRequest(q, k.uks, ids);
      if ok && k.pk.tagName !in ukv {
        if k.pk.tagName !in data && HasGenerator(k.pk) {
          var id := PString(ids(|q.tags|));
          data := data[k.pk.tagName := id];
          ukv := ukv[k.pk.tagName := id];
          q.tags, q.values := q.tags + [k.pk.tagName], q.values + [id];
        } else {
          ok := false;
        }
      }
    }

    /** Stores the rows of a table. */
    method SetRows(path: seq<string>, rows: seq<Value>)
      requires FindValue(path, root).Some?
      modifies this`root
      ensures root == SetValue(path, old(root), rows)
    {
      root := SetValue(path, root, rows);
    }

    /** Merges req into row i in place of it; the partly merged row stays when
        the merge fails. */
    method MergeIntoRow(t: Table, rows: seq<Value>, i: nat, req: Fields) returns (err: MergeError)
      requires FindValue(t.path, root).Some? && i < |rows| && IsStructLike(rows[i])
      modifies this`root
      ensures var r := MergeFields(config.zeros, t.field.fields, Deref(config.zeros, rows[i]), req, UnSpec);
        err == r.err && root == SetValue(t.path, old(root), rows[i := Rewrap(rows[i], r.dst)])
    {
      var row := new Record(Deref(config.zeros, rows[i]));
      var merger := new Merger(config.zeros, UnSpec);
      err := merger.DataMerge(t.field.fields, row, req);
      SetRows(t.path, rows[i := Rewrap(rows[i], row.fields)]);
    }

    /** Appends a pointer to a new struct merged from req, if that succeeds. */
    method AppendRow(t: Table, rows: seq<Value>, req: Fields) returns (err: MergeError)
      requires FindValue(t.path, root).Some? && t.field.ref.Some?
      modifies this`root
      ensures var r := MergeFields(config.zeros, t.field.fields, ZeroOf(config.zeros, t.field.ref.value), req, UnSpec);
        && err == r.err
        && root == if err != NoErr then old(root)
                   else SetValue(t.path, old(root), rows + [VPtr(t.field.ref.value, r.dst)])
    {
      var dst := new Record(ZeroOf(config.zeros, t.field.ref.value));
      var merger := new Merger(config.zeros, UnSpec);
      err := merger.DataMerge(t.field.fields, dst, req);
      if err == NoErr {
        SetRows(t.path, rows + [VPtr(t.field.ref.value, dst.fields)]);
      }
    }

    /** The second half of insert: the scan over the rows and what follows. */
    method PlaceRow(t: Table, uks: map<string, FieldSpec>, ukv: map<string, Pb>, rows: seq<Value>, req: Fields,
        mode: Mode, how: Flushing) returns (res: Outcome)
      requires FindValue(t.path, root) == Some(rows) && t.field.ref.Some?
      modifies this`root, this`disk
      ensures (Current(), res) == Commit(config, old(Current()), t.path,
        Place(config.zeros, t.field, uks, ukv, rows, req, mode), how)
    {
      SetSame(t.path, root);
      var err := NoErr;
      var i := FindHit(uks, ukv, rows);
      if i < |rows| {
        match mode
        case Raw => return Conflict;
        case Igsert => return Done;
        case Upsert => err := MergeIntoRow(t, rows, i, req);
      } else {
        err := AppendRow(t, rows, req);
      }
      if err != NoErr {
        return Refused;
      }
      var flushed := Flush(how);
      res := if flushed then Done else FlushFailed;
    }

    /** insert, once the rows are found. */
    method InsertInto(t: Table, rows: seq<Value>, q: DataInsert, mode: Mode, ids: nat -> string, how: Flushing)
      returns (res: Outcome)
      requires FindValue(t.path, root) == Some(rows) && KeysOf(t.field).Some? && t.field.ref.Some?
      requires 0 < |q.tags| == |q.values|
      modifies this`root, this`disk, q`tags, q`values
      ensures var (out, q') := InsertRows(config.zeros, t.field, KeysOf(t.field).value, ids, old(q.AsRequest()), mode, rows);
        (Current(), res) == Commit(config, old(Current()), t.path, out, how) && q.AsRequest() == q'
    {
      SetSame(t.path, root);
      var keys := PrimaryKeys(t.field);
      var data, ukv, ok := PrepareRequest(q, keys.value, ids);
      if !ok {
        return Refused;
      }
      var decoded := DecodeRequest(config.zeros, t.field, data);
      if decoded.None? {
        return Refused;
      }
      res := PlaceRow(t, keys.value.uks, ukv, rows, decoded.value, mode, how);
    }

    /** insert, behind Insert, Igsert and Upsert. */
    method InsertRow(q: DataInsert, mode: Mode, ids: nat -> string, how: Flushing) returns (res: Outcome)
      requires Usable(tables)
      modifies this`root, this`disk, q`tags, q`values
      ensures (Current(), res) == Step(config, old(Current()), InsertOp(q.tableName, old(q.AsRequest()), mode, ids, how))
      ensures q.AsRequest() == RequestAfter(config, old(Current()), q.tableName, ids, old(q.AsRequest()), mode)
    {
      if |q.tags| == 0 || |q.tags| != |q.values| {
        MalformedIsRefused(config, Current(), InsertOp(q.tableName, q.AsRequest(), mode, ids, how));
        return Refused;
      }
      if q.tableName !in tables {
        return Refused;
      }
      var t := tables[q.tableName];
      var found := FindValue(t.path, root);
      if found.None? {
        return Refused;
      }
      ghost var st, op := Current(), InsertOp(q.tableName, q.AsRequest(), mode, ids, how);
      StepCommits(config, st, op, RunOnRows(config, t, op, found.value));
      res := InsertInto(t, found.value, q, mode, ids, how);
    }

    static lemma SetSameIfReached(st: State, name: string)
      ensures RowsOf(st, name).Some? ==>
        SetValue(st.tables[name].path, st.root, RowsOf(st, name).value) == st.root
    {
      if RowsOf(st, name).Some? {
        SetSame(st.tables[name].path, st.root);
      }
    }

    /** The loop of Delete over the conditions. */
    method ReadConditions(pk: FieldSpec, conds: seq<Condition>) returns (key: Option<Option<string>>)
      ensures key == DeleteKey(pk, conds)
    {
      var last: Option<string> := None;
      for i := 0 to |conds|
        invariant DeleteKey(pk, conds[..i]) == Some(last)
      {
        assert conds[..i + 1][..i] == conds[..i];
        var c := conds[i];
        if c.value.Some? && c.field == pk.tagName {
          if pk.typ != TString || Blank(StringOf(c.value.value)) {
            DeleteKeyStopped(pk, conds, i + 1, |conds|);
            assert conds[..|conds|] == conds;
            return None;
          }
          last := Some(StringOf(c.value.value));
        }
      }
      assert conds[..|conds|] == conds;
      key := Some(last);
    }

    static lemma {:induction false} DeleteKeyStopped(pk: FieldSpec, conds: seq<Condition>, n: nat, m: nat)
      requires n <= m <= |conds| && DeleteKey(pk, conds[..n]).None?
      ensures DeleteKey(pk, conds[..m]).None?
      decreases m
    {
      if n < m {
        DeleteKeyStopped(pk, conds, n, m - 1);
        assert conds[..m][..m - 1] == conds[..m - 1];
      }
    }

    /** Rebuilds the slice without row i. */
    method WithoutRow(rows: seq<Value>, i: nat) returns (ls: seq<Value>)
      requires i < |rows|
      ensures ls == rows[..i] + rows[i + 1..]
    {
      ls := [];
      for j := 0 to i
        invariant ls == rows[..j]
      {
        ls := ls + [rows[j]];
      }
      for j := i + 1 to |rows|
        invariant ls == rows[..i] + rows[i + 1..j]
      {
        ls := ls + [rows[j]];
      }
    }

    /** The scan of Delete for the row with the key. */
    method RemoveRow(t: Table, name: string, key: string, rows: seq<Value>, how: Flushing) returns (res: Outcome)
      requires FindValue(t.path, root) == Some(rows)
      modifies this`root, this`disk
      ensures var i := FirstWithKey(name, key, rows);
        (Current(), res) == Commit(config, old(Current()), t.path,
          if i < |rows| then RowsOut(rows[..i] + rows[i + 1..], Done, true) else RowsOut(rows, Done, false), how)
    {
      SetSame(t.path, root);
      var i := 0;
      while i < |rows|
        invariant 0 <= i <= |rows|
        invariant forall j :: 0 <= j < i ==> Text(rows[j], name) != Some(key)
      {
        if Text(rows[i], name) == Some(key) {
          assert i == FirstWithKey(name, key, rows);
          var ls := WithoutRow(rows, i);
          SetRows(t.path, ls);
          var flushed := Flush(how);
          return if flushed then Done else FlushFailed;
        }
        i := i + 1;
      }
      assert FirstWithKey(name, key, rows) == |rows|;
      res := Done;
    }

    method Delete(tableName: string, conds: seq<Condition>, how: Flushing) returns (res: Outcome)
      requires Usable(tables)
      modifies this`root, this`disk
      ensures (Current(), res) == Step(config, old(Current()), DeleteOp(tableName, conds, how))
    {
      SetSameIfReached(Current(), tableName);
      if tableName !in tables {
        return Refused;
      }
      var t := tables[tableName];
      var found := FindValue(t.path, root);
      if found.None? {
        return Refused;
      }
      if |conds| == 0 {
        return Refused;
      }
      var keys := PrimaryKeys(t.field);
      var key := ReadConditions(keys.value.pk, conds);
      if key.None? || key.value.None? {
        return Refused;
      }
      res := RemoveRow(t, keys.value.pk.name, key.value.value, found.value, how);
    }

    /** The loop of Query over the inner conditions. */
    method ReadFilter(fs: seq<FieldSpec>, filter: Option<Filter>) returns (tests: Option<map<string, Pb>>)
      ensures tests == FilterTests(fs, filter)
    {
      tests := Some(map[]);
      if filter.None? {
        return;
      }
      var index := ReadIndex(fs);
      if |filter.value.field| > 0 {
        var name := LowerName(filter.value.field);
        if name !in index {
          return None;
        }
        if index[name].typ == TString {
          tests := Some(map[index[name].name := filter.value.value]);
        }
        return;
      }
      var inner := filter.value.inner;
      var found: map<string, Pb> := map[];
      for i := 0 to |inner|
        invariant TestsOf(fs, inner[..i]) == Some(found)
      {
        assert inner[..i + 1][..i] == inner[..i];
        var name := LowerName(inner[i].field);
        if name !in index {
          TestsStopped(fs, inner, i + 1, |inner|);
          assert inner[..|inner|] == inner;
          return None;
        }
        if index[name].typ == TString {
          found := found[index[name].name := inner[i].value];
        }
      }
      assert inner[..|inner|] == inner;
      tests := Some(found);
    }

    static lemma {:induction false} TestsStopped(fs: seq<FieldSpec>, inner: seq<Filter>, n: nat, m: nat)
      requires n <= m <= |inner| && TestsOf(fs, inner[..n]).None?
      ensures TestsOf(fs, inner[..m]).None?
      decreases m
    {
      if n < m {
        TestsStopped(fs, inner, n, m - 1);
        assert inner[..m][..m - 1] == inner[..m - 1];
      }
    }

    method ReadIndex(fs: seq<FieldSpec>) returns (index: map<string, FieldSpec>)
      ensures index == Index(fs)
    {
      index := map[];
      for i := 0 to |fs|
        invariant index == Index(fs[..i])
      {
        assert fs[..i + 1][..i] == fs[..i];
        index := index[fs[i].tagName := fs[i]];
      }
      assert fs[..|fs|] == fs;
    }

    /** The rows of the state machine's answer: in storage order without a sort,
        else a permutation of them in the order asked for. None where it refuses. */
    method RunQuery(q: DataQuery) returns (out: Option<seq<DataRow>>)
      requires Usable(tables)
      modifies q`limit
      ensures var (st, res) := Step(config, Current(), QueryOp(q.tableName, q.filter, q.sort, old(q.limit)));
        st == Current() &&
        match res {
          case Found(rows) => out.Some? &&
            (match q.sort {
              case None => out.value == rows
              case Some(order) => multiset(out.value) == multiset(rows) && Ordered(order.descending, out.value) &&
                var fs := tables[q.tableName].field.fields;
                DistinctTags(fs) ==> SortedBy(fs, order, out.value)
            })
          case _ => out.None?
        }
      ensures q.limit == if RowsOf(Current(), q.tableName).Some? && old(q.limit) == 0 then 10 else old(q.limit)
    {
      if q.tableName !in tables {
        return None;
      }
      var t := tables[q.tableName];
      var found := FindValue(t.path, root);
      if found.None? {
        return None;
      }
      if q.limit == 0 {
        q.limit := 10;
      }
      var tests := ReadFilter(t.field.fields, q.filter);
      if tests.None? {
        return None;
      }
      var rows := SelectRows(t.field.fields, tests.value, SortField(q.sort), q.limit, found.value);
      if q.sort.Some? {
        rows := SortRows(rows, q.sort.value.descending);
        if DistinctTags(t.field.fields) {
          OrderedIsSorted(t.field.fields, q.sort.value, tests.value, q.limit, found.value, rows);
        }
      }
      out := Some(rows);
    }

    /** TableSetup, given the pieces of the path between double underscores. */
    method TableSetup(pieces: seq<string>) returns (ok: bool)
      modifies this`tables
      ensures (Current(), ok) == Setup(config, old(Current()), pieces)
    {
      var tags: seq<string> := [];
      for i := 0 to |pieces|
        invariant tags == LowerAll(pieces)[..i] && tables == old(tables)
      {
        var tag := LowerName(pieces[i]);
        tags := tags + [tag];
      }
      assert tags == LowerAll(pieces);
      var name := Join(tags);
      if name in tables {
        return true;
      }
      var found := FindTable(tags, config.fields);
      if found.None? {
        return false;
      }
      tables := tables[name := found.value];
      ok := true;
    }
  }
}
