/** Small tables: one whose rows no query finds by key, one whose keys are
    generated too late or are empty, and one where a refused Upsert leaves memory
    ahead of disk and a delete succeeds. */
module StoreExamples {
  import opened GoTypes
  import opened Names
  import opened Merge
  import opened MergeLaws
  import opened SpecParse
  import opened Decode
  import opened Paths
  import opened Rows
  import opened KeyedMap
  import opened Query
  import opened Answers
  import opened Store
  import opened WriteThrough

  /** Structs of strings are in order. */
  lemma StringsInOrder(zs: Zeros, fs: seq<FieldSpec>, v: Fields)
    requires forall i :: 0 <= i < |fs| ==> fs[i].typ == TString && fs[i].fields == [] && fs[i].ref == None
    requires forall i, j :: 0 <= i < j < |fs| ==> fs[i].name != fs[j].name
    requires forall i :: 0 <= i < |fs| ==> fs[i].name in v && v[fs[i].name].VStr?
    ensures SpecOk(zs, fs) && Shaped(zs, fs, v)
    ensures (forall i :: 0 <= i < |fs| ==> v[fs[i].name] == VStr("")) ==> ZeroFields(zs, fs, v)
  {
  }

  // ---------------------------------------------- a key with an upper-case tag

  /** What the parser makes of `Id string` with no json tag. */
  const ITEM_ID := FieldSpec("Id", "Id", TString, "", [PrimaryKey], [], None, [], None)
  const ITEM := GNamed("Item")
  const ITEMS := FieldSpec("Items", "items", TArray(SStruct), "Item", [], [], None, [ITEM_ID], Some(ITEM))
  const ITEM_ZEROS: Zeros := map["Item" := map["Id" := VStr("")]]

  lemma ItemKeys()
    ensures KeysOf(ITEMS) == Some(Keys(ITEM_ID, map["Id" := ITEM_ID]))
  {
    assert [ITEM_ID][..0] == [];
    assert PrimaryFields([ITEM_ID]) == [ITEM_ID] && UniqueFields([ITEM_ID]) == map["Id" := ITEM_ID];
  }

  lemma ItemTable()
    ensures TableOk(ITEM_ZEROS, ITEMS)
  {
    ItemKeys();
    StringsInOrder(ITEM_ZEROS, ITEMS.fields, ZeroOf(ITEM_ZEROS, ITEM));
    assert FieldOk(ITEM_ZEROS, ITEMS);
  }

  /** Such a table takes rows, but no filter asks for one of its keys, and one
      that names the field is an error. */
  lemma UpperKeyIsNeverFound(filter: Option<Filter>, key: string)
    ensures BaseSpec(FieldDecl("Id", "", GString, [], None, [PrimaryKey]), TString) == ITEM_ID
    ensures TableOk(ITEM_ZEROS, ITEMS) && !AsksKey(ITEMS, filter, key)
    ensures FilterTests(ITEMS.fields, Built(None, [ByAdd(Ask("Id", PString(key)))])) == None
  {
    ItemKeys();
    ItemTable();
    assert HasUpper("Id") by {
      assert IsUpper("Id"[0]);
    }
    KeyCanBeAskedIff(ITEM_ZEROS, ITEMS, key);
    LowerKeepsIff("Id");
    IndexHolds(ITEMS.fields);
    assert !Known(ITEMS.fields, "Id");
    NewQueryTests(ITEMS.fields, [ByAdd(Ask("Id", PString(key)))]);
    assert !Known(ITEMS.fields, [Ask("Id", PString(key))][0].field);
  }

  // ------------------------------------------------- a key generated too late

  /** A key that the code can generate. */
  const AUTO_ID := FieldSpec("Id", "id", TString, "", [PrimaryKey, ObjectId(12)], [], None, [], None)
  const AUTO := FieldSpec("Items", "items", TArray(SStruct), "Item", [], [], None, [AUTO_ID], Some(ITEM))
  const AUTO_KEYS := Keys(AUTO_ID, map["id" := AUTO_ID])

  function WithId(id: string): Fields {
    map["Id" := VStr(id)]
  }

  lemma AutoKeys()
    ensures KeysOf(AUTO) == Some(AUTO_KEYS) && HasGenerator(AUTO_ID)
  {
    assert [AUTO_ID][..0] == [];
    assert PrimaryFields([AUTO_ID]) == [AUTO_ID] && UniqueFields([AUTO_ID]) == map["id" := AUTO_ID];
    assert ObjectId(12) in AUTO_ID.attrs;
  }

  lemma AutoTable()
    ensures TableOk(ITEM_ZEROS, AUTO)
  {
    AutoKeys();
    StringsInOrder(ITEM_ZEROS, AUTO.fields, ZeroOf(ITEM_ZEROS, ITEM));
    assert FieldOk(ITEM_ZEROS, AUTO);
  }

  lemma AutoPrepare(ids: nat -> string, value: Pb)
    ensures var key := if value == Kindless then PString(ids(0)) else value;
      Prepare(AUTO_KEYS, ids, Request(["id"], [value]))
        == Prepared(Request(["id"], [key]), map["id" := value], map["id" := key], true)
  {
    AutoKeys();
    var key := if value == Kindless then PString(ids(0)) else value;
    var q := Request(["id"], [value]);
    assert ScanRequest(AUTO_KEYS.uks, ids, q, 0) == Scan([value], map[], map[], true);
    assert [value][0 := key] == [key];
    assert ScanRequest(AUTO_KEYS.uks, ids, q, 1) == Scan([key], map["id" := value], map["id" := key], true);
  }

  lemma AutoDecode(id: string)
    ensures DecodeRequest(ITEM_ZEROS, AUTO, map["id" := PString(id)]) == Some(WithId(id))
  {
    var data := map["id" := PString(id)];
    assert [AUTO_ID][1..] == [];
    assert ZeroOf(ITEM_ZEROS, ITEM) == WithId("") && WithId("")["Id" := VStr(id)] == WithId(id);
    assert DecodeValue(ITEM_ZEROS, AUTO_ID, VStr(""), PString(id)) == Some(VStr(id));
    assert DecodeFields(ITEM_ZEROS, [], WithId(id), data) == Some(WithId(id));
    assert DecodeFields(ITEM_ZEROS, [AUTO_ID], WithId(""), data) == Some(WithId(id));
  }

  lemma AutoMerge(id: string)
    ensures MergeFields(ITEM_ZEROS, [AUTO_ID], WithId(""), WithId(id), UnSpec).dst == WithId(id)
    ensures MergeFields(ITEM_ZEROS, [AUTO_ID], WithId(""), WithId(id), UnSpec).err == NoErr
  {
    assert [AUTO_ID][1..] == [];
    var r := MergeField(ITEM_ZEROS, AUTO_ID, WithId(""), WithId(id), UnSpec);
    assert r.dst == WithId(id) && r.err == NoErr;
    assert MergeFields(ITEM_ZEROS, [], r.dst, WithId(id), UnSpec) == Out(r.dst, false, NoErr);
  }

  /** Inserting a key into the empty table. */
  lemma AutoInsert(ids: nat -> string, id: string)
    ensures InsertRows(ITEM_ZEROS, AUTO, AUTO_KEYS, ids, Request(["id"], [PString(id)]), Raw, [])
      == (RowsOut([VPtr(ITEM, WithId(id))], Done, true), Request(["id"], [PString(id)]))
  {
    AutoPrepare(ids, PString(id));
    AutoDecode(id);
    AutoMerge(id);
    assert ZeroOf(ITEM_ZEROS, ITEM) == WithId("");
    assert [] + [VPtr(ITEM, WithId(id))] == [VPtr(ITEM, WithId(id))];
  }

  /** An insert that gives the key without a kind is refused, although a key is
      generated into the request; sent again as it then is, it adds the row. */
  lemma GeneratedTooLate(ids: nat -> string, ids': nat -> string)
    ensures TableOk(ITEM_ZEROS, AUTO) && KeysOf(AUTO) == Some(AUTO_KEYS)
    ensures InsertRows(ITEM_ZEROS, AUTO, AUTO_KEYS, ids, Request(["id"], [Kindless]), Raw, [])
      == (RowsOut([], Refused, false), Request(["id"], [PString(ids(0))]))
    ensures InsertRows(ITEM_ZEROS, AUTO, AUTO_KEYS, ids', Request(["id"], [PString(ids(0))]), Raw, [])
      == (RowsOut([VPtr(ITEM, WithId(ids(0)))], Done, true), Request(["id"], [PString(ids(0))]))
  {
    AutoTable();
    AutoKeys();
    AutoPrepare(ids, Kindless);
    assert HasKindless(map["id" := Kindless]["id"]);
    AutoInsert(ids', ids(0));
  }

  /** An empty key is accepted, and no delete removes its row. */
  lemma EmptyKeyGetsIn(ids: nat -> string, conds: seq<Condition>)
    ensures TableOk(ITEM_ZEROS, AUTO) && KeysOf(AUTO) == Some(AUTO_KEYS)
    ensures InsertRows(ITEM_ZEROS, AUTO, AUTO_KEYS, ids, Request(["id"], [PString("")]), Raw, []).0
      == RowsOut([VPtr(ITEM, WithId(""))], Done, true)
    ensures DeleteRows(AUTO_ID, conds, [VPtr(ITEM, WithId(""))]).rows == [VPtr(ITEM, WithId(""))]
  {
    AutoTable();
    AutoKeys();
    AutoInsert(ids, "");
    NamedIsNotBlank(AUTO_ID, conds);
  }

  // -------------------------------------------------- a merge that fails half-way

  const ID := FieldSpec("Id", "id", TString, "", [PrimaryKey], [], None, [], None)
  const NAME := FieldSpec("Name", "name", TString, "", [], [], None, [], None)
  const STATE := FieldSpec("State", "state", TString, "", [], ["open", "closed"], None, [], None)
  const TASK := GNamed("Task")
  const TASKS := FieldSpec("Tasks", "tasks", TArray(SStruct), "Task", [], [], None, [ID, NAME, STATE], Some(TASK))
  const TASK_ZEROS: Zeros := map["Task" := Task("", "", "")]
  const TASK_KEYS := Keys(ID, map["id" := ID])
  const TASK_TABLE := Table(["tasks"], ["Tasks"], TASKS)
  const TASK_STORE := Config(TASK_ZEROS, [TASKS], true)

  function Task(id: string, name: string, state: string): Fields {
    map["Id" := VStr(id), "Name" := VStr(name), "State" := VStr(state)]
  }

  function Holding(v: Fields): Fields {
    map["Tasks" := VSlice([VPtr(TASK, v)])]
  }

  /** One task, on disk as in memory. */
  function OneTask(v: Fields): State {
    State(Holding(v), map["tasks" := TASK_TABLE], Holding(v))
  }

  const BAD := Request(["id", "name", "state"], [PString("1"), PString("new"), PString("lost")])

  function BadData(): map<string, Pb> {
    map["id" := PString("1"), "name" := PString("new"), "state" := PString("lost")]
  }

  lemma TaskKeys()
    ensures KeysOf(TASKS) == Some(TASK_KEYS)
  {
    var fs := [ID, NAME, STATE];
    assert fs[..2] == [ID, NAME] && [ID, NAME][..1] == [ID] && [ID][..0] == [];
    assert PrimaryFields([ID]) == [ID] && UniqueFields([ID]) == map["id" := ID];
    assert PrimaryFields([ID, NAME]) == [ID] && UniqueFields([ID, NAME]) == map["id" := ID];
    assert PrimaryFields(fs) == [ID] && UniqueFields(fs) == map["id" := ID];
  }

  lemma TaskTable()
    ensures TableOk(TASK_ZEROS, TASKS) && SpecOk(TASK_ZEROS, [TASKS])
  {
    TaskKeys();
    StringsInOrder(TASK_ZEROS, TASKS.fields, ZeroOf(TASK_ZEROS, TASK));
    assert FieldOk(TASK_ZEROS, TASKS);
  }

  lemma TaskFound()
    ensures FindTable(["tasks"], [TASKS]) == Some(TASK_TABLE) && Join(["tasks"]) == "tasks"
  {
    TaskKeys();
    assert FirstTag([TASKS], "tasks") == Some(TASKS);
  }

  lemma TaskRegistered()
    ensures KeysOf(TASKS) == Some(TASK_KEYS) && Registered(TASK_STORE, "tasks", TASK_TABLE)
  {
    TaskKeys();
    TaskTable();
    TaskFound();
  }

  lemma HoldingIsShaped(v: Fields)
    requires Shaped(TASK_ZEROS, TASKS.fields, v)
    ensures Shaped(TASK_ZEROS, [TASKS], Holding(v))
  {
    assert ShapedStruct(TASK_ZEROS, TASKS, VPtr(TASK, v));
    assert ShapedValue(TASK_ZEROS, TASKS, Holding(v)["Tasks"]);
  }

  lemma TaskStoreInv(v: Fields)
    requires Shaped(TASK_ZEROS, TASKS.fields, v)
    ensures Inv(TASK_STORE, OneTask(v))
  {
    TaskTable();
    TaskRegistered();
    HoldingIsShaped(v);
  }

  lemma BadScan(ids: nat -> string)
    ensures Prepare(TASK_KEYS, ids, BAD) == Prepared(BAD, BadData(), map["id" := PString("1")], true)
  {
    var uks, one := TASK_KEYS.uks, map["id" := PString("1")];
    assert ScanRequest(uks, ids, BAD, 0) == Scan(BAD.values, map[], map[], true);
    assert ScanRequest(uks, ids, BAD, 1) == Scan(BAD.values, one, one, true);
    assert ScanRequest(uks, ids, BAD, 2) == Scan(BAD.values, one["name" := PString("new")], one, true);
    assert ScanRequest(uks, ids, BAD, 3) == Scan(BAD.values, BadData(), one, true);
  }

  lemma BadDecode()
    ensures DecodeRequest(TASK_ZEROS, TASKS, BadData()) == Some(Task("1", "new", "lost"))
  {
    var fs, data := [ID, NAME, STATE], BadData();
    assert fs[1..] == [NAME, STATE] && [NAME, STATE][1..] == [STATE] && [STATE][1..] == [];
    assert DecodeFields(TASK_ZEROS, [], Task("1", "new", "lost"), data) == Some(Task("1", "new", "lost"));
    assert DecodeFields(TASK_ZEROS, [STATE], Task("1", "new", ""), data) == Some(Task("1", "new", "lost")) by {
      assert Task("1", "new", "")["State" := VStr("lost")] == Task("1", "new", "lost");
    }
    assert DecodeFields(TASK_ZEROS, [NAME, STATE], Task("1", "", ""), data) == Some(Task("1", "new", "lost")) by {
      assert Task("1", "", "")["Name" := VStr("new")] == Task("1", "new", "");
    }
    assert DecodeFields(TASK_ZEROS, fs, Task("", "", ""), data) == Some(Task("1", "new", "lost")) by {
      assert Task("", "", "")["Id" := VStr("1")] == Task("1", "", "");
    }
    assert ZeroOf(TASK_ZEROS, TASK) == Task("", "", "");
  }

  lemma BadMerge()
    ensures MergeFields(TASK_ZEROS, TASKS.fields, Task("1", "old", "open"), Task("1", "new", "lost"), UnSpec)
      == Out(Task("1", "new", "open"), true, ErrEnum)
  {
    var fs, d, s := [ID, NAME, STATE], Task("1", "old", "open"), Task("1", "new", "lost");
    assert fs[1..] == [NAME, STATE] && [NAME, STATE][1..] == [STATE];
    assert MergeField(TASK_ZEROS, ID, d, s, UnSpec) == Out(d, false, NoErr);
    assert MergeField(TASK_ZEROS, NAME, d, s, UnSpec) == Out(Task("1", "new", "open"), true, NoErr);
    assert MergeField(TASK_ZEROS, STATE, Task("1", "new", "open"), s, UnSpec) == Out(Task("1", "new", "open"), false, ErrEnum);
    assert MergeFields(TASK_ZEROS, [STATE], Task("1", "new", "open"), s, UnSpec)
      == Out(Task("1", "new", "open"), false, ErrEnum);
    assert MergeFields(TASK_ZEROS, [NAME, STATE], d, s, UnSpec) == Out(Task("1", "new", "open"), true, ErrEnum);
  }

  lemma BadSeek(ids: nat -> string)
    ensures KeysOf(TASKS) == Some(TASK_KEYS)
    ensures Seek(TASK_ZEROS, TASKS, ids, BAD) == Some(Sought(map["id" := PString("1")], Task("1", "new", "lost")))
  {
    TaskKeys();
    BadScan(ids);
    BadDecode();
  }

  lemma BadHit(v: Fields)
    requires TextIn(v, "Id") == Some("1")
    ensures FirstHit(TASK_KEYS.uks, map["id" := PString("1")], [VPtr(TASK, v)]) == 0
  {
    assert MatchesOn(TASK_KEYS.uks, map["id" := PString("1")], VPtr(TASK, v), "id");
  }

  /** An Upsert whose merge into the only row fails. */
  lemma PlaceOnOne(zs: Zeros, f: FieldSpec, ukv: map<string, Pb>, rt: GoType, d: Fields, req: Fields)
    requires KeysOf(f).Some? && f.ref.Some? && FirstHit(KeysOf(f).value.uks, ukv, [VPtr(rt, d)]) == 0
    requires MergeFields(zs, f.fields, d, req, UnSpec).err != NoErr
    ensures Place(zs, f, KeysOf(f).value.uks, ukv, [VPtr(rt, d)], req, Upsert)
      == RowsOut([VPtr(rt, MergeFields(zs, f.fields, d, req, UnSpec).dst)], Refused, false)
  {
  }

  lemma BadPlace(ids: nat -> string)
    ensures KeysOf(TASKS) == Some(TASK_KEYS)
    ensures InsertRows(TASK_ZEROS, TASKS, TASK_KEYS, ids, BAD, Upsert, [VPtr(TASK, Task("1", "old", "open"))]).0
      == RowsOut([VPtr(TASK, Task("1", "new", "open"))], Refused, false)
  {
    BadSeek(ids);
    BadMerge();
    BadHit(Task("1", "old", "open"));
    PlaceOnOne(TASK_ZEROS, TASKS, map["id" := PString("1")], TASK, Task("1", "old", "open"), Task("1", "new", "lost"));
    InsertIsPlace(TASK_ZEROS, TASKS, ids, BAD, Upsert, [VPtr(TASK, Task("1", "old", "open"))]);
  }

  lemma Unlike()
    ensures Holding(Task("1", "new", "open")) != Holding(Task("1", "old", "open"))
  {
    assert Task("1", "new", "open")["Name"] != Task("1", "old", "open")["Name"];
    assert Holding(Task("1", "new", "open"))["Tasks"].items[0] != Holding(Task("1", "old", "open"))["Tasks"].items[0];
  }

  /** Storing other rows without a flush. */
  lemma StoredOnly(v: Fields, w: Fields)
    ensures RowsOf(OneTask(v), "tasks") == Some([VPtr(TASK, v)])
    ensures Commit(TASK_STORE, OneTask(v), ["Tasks"], RowsOut([VPtr(TASK, w)], Refused, false), Written)
      == (OneTask(v).(root := Holding(w)), Refused)
  {
    assert SetValue(["Tasks"], Holding(v), [VPtr(TASK, w)]) == Holding(w);
  }

  lemma BadStep(ids: nat -> string)
    ensures KeysOf(TASKS) == Some(TASK_KEYS)
    ensures Step(TASK_STORE, OneTask(Task("1", "old", "open")), InsertOp("tasks", BAD, Upsert, ids, Written))
      == (OneTask(Task("1", "old", "open")).(root := Holding(Task("1", "new", "open"))), Refused)
  {
    var v, w := Task("1", "old", "open"), Task("1", "new", "open");
    BadPlace(ids);
    StoredOnly(v, w);
    StepCommits(TASK_STORE, OneTask(v), InsertOp("tasks", BAD, Upsert, ids, Written),
      RowsOut([VPtr(TASK, w)], Refused, false));
  }

  /** The task is open; an Upsert that renames it and puts it into a state that
      does not exist is refused, and leaves it renamed in memory only. */
  lemma RefusedUpsertRunsAhead(ids: nat -> string)
    ensures Inv(TASK_STORE, OneTask(Task("1", "old", "open")))
    ensures var st := OneTask(Task("1", "old", "open"));
      var (st', res) := Step(TASK_STORE, st, InsertOp("tasks", BAD, Upsert, ids, Written));
      && Synced(TASK_STORE, st) && !Synced(TASK_STORE, st')
      && res == Refused && st' == st.(root := Holding(Task("1", "new", "open")))
  {
    StringsInOrder(TASK_ZEROS, TASKS.fields, Task("1", "old", "open"));
    TaskStoreInv(Task("1", "old", "open"));
    BadStep(ids);
    Unlike();
  }

  lemma TaskDelete(v: Fields)
    requires TextIn(v, "Id") == Some("abc")
    ensures DeleteRows(ID, [Condition("id", Some(PString("abc")))], [VPtr(TASK, v)]) == RowsOut([], Done, true)
  {
    var conds, rows := [Condition("id", Some(PString("abc")))], [VPtr(TASK, v)];
    assert IsLastOnKey(ID, conds, 0);
    assert HasVisible("abc") by {
      assert '!' <= "abc"[0] <= '~';
    }
    VisibleKeyIsDeleted(ID, conds, rows, 0, "abc", 0);
    assert rows[..0] + rows[1..] == [];
  }

  lemma NoTasks(v: Fields)
    ensures Commit(TASK_STORE, OneTask(v), ["Tasks"], RowsOut([], Done, true), Written)
      == (State(map["Tasks" := VSlice([])], map["tasks" := TASK_TABLE], map["Tasks" := VSlice([])]), Done)
  {
    assert SetValue(["Tasks"], Holding(v), []) == map["Tasks" := VSlice([])];
  }

  /** Deleting the task "abc" removes it from memory and disk. */
  lemma DeleteRemoves(name: string, state: string)
    ensures KeysOf(TASKS) == Some(TASK_KEYS)
    ensures Step(TASK_STORE, OneTask(Task("abc", name, state)), DeleteOp("tasks", [Condition("id", Some(PString("abc")))], Written))
      == (State(map["Tasks" := VSlice([])], map["tasks" := TASK_TABLE], map["Tasks" := VSlice([])]), Done)
  {
    var v := Task("abc", name, state);
    TaskKeys();
    TaskDelete(v);
    StoredOnly(v, v);
    NoTasks(v);
    StepCommits(TASK_STORE, OneTask(v), DeleteOp("tasks", [Condition("id", Some(PString("abc")))], Written),
      RowsOut([], Done, true));
  }
}
