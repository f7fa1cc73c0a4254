/** A table with two unique fields and an Upsert after which two rows share a
    value: the condition in UniqueKeys cannot be dropped. */
module SharedExample {
  import opened GoTypes
  import opened Merge
  import opened MergeLaws
  import opened Decode
  import opened Paths
  import opened Rows
  import opened KeyedMap
  import opened UniqueKeys

  const ID := FieldSpec("Id", "id", TString, "", [PrimaryKey], [], None, [], None)
  const NAME := FieldSpec("Name", "name", TString, "", [UniqueKey], [], None, [], None)
  const PERSON := GNamed("Person")
  const PEOPLE := FieldSpec("People", "people", TArray(SStruct), "Person", [], [], None, [ID, NAME], Some(PERSON))
  const KEYS := Keys(ID, map["id" := ID, "name" := NAME])
  const NOBODY: Zeros := map["Person" := Named("", "")]

  function Named(id: string, name: string): Fields {
    map["Id" := VStr(id), "Name" := VStr(name)]
  }

  function Person(id: string, name: string): Value {
    VPtr(PERSON, Named(id, name))
  }

  function Asking(id: string, name: string): map<string, Pb> {
    map["id" := PString(id), "name" := PString(name)]
  }

  lemma PeopleKeys()
    ensures KeysOf(PEOPLE) == Some(KEYS)
  {
    var fs := [ID, NAME];
    assert fs[..1] == [ID] && [ID][..0] == [];
    assert PrimaryFields([ID]) == [ID] && UniqueFields([ID]) == map["id" := ID];
    assert PrimaryFields(fs) == [ID] && UniqueFields(fs) == KEYS.uks;
  }

  lemma PeopleSpec()
    ensures SpecOk(NOBODY, [ID, NAME]) && ZeroFields(NOBODY, [ID, NAME], Named("", ""))
  {
  }

  lemma PeopleTable()
    ensures TableOk(NOBODY, PEOPLE)
  {
    PeopleKeys();
    PeopleSpec();
  }

  lemma PeopleScan(ids: nat -> string, q: Request, id: string, name: string)
    requires q == Request(["id", "name"], [PString(id), PString(name)])
    ensures Prepare(KEYS, ids, q) == Prepared(q, Asking(id, name), Asking(id, name), true)
  {
    assert ScanRequest(KEYS.uks, ids, q, 0) == Scan(q.values, map[], map[], true);
    assert ScanRequest(KEYS.uks, ids, q, 1) == Scan(q.values, map["id" := PString(id)], map["id" := PString(id)], true);
    assert ScanRequest(KEYS.uks, ids, q, 2) == Scan(q.values, Asking(id, name), Asking(id, name), true);
  }

  lemma PeopleDecode(id: string, name: string)
    ensures DecodeRequest(NOBODY, PEOPLE, Asking(id, name)) == Some(Named(id, name))
  {
    var fs, data, zero := [ID, NAME], Asking(id, name), Named("", "");
    assert fs[1..] == [NAME] && [NAME][1..] == [];
    assert ZeroOf(NOBODY, PERSON) == zero;
    assert DecodeValue(NOBODY, ID, VStr(""), PString(id)) == Some(VStr(id));
    assert DecodeValue(NOBODY, NAME, VStr(""), PString(name)) == Some(VStr(name));
    assert DecodeFields(NOBODY, [], Named(id, name), data) == Some(Named(id, name));
    assert DecodeFields(NOBODY, [NAME], Named(id, ""), data) == Some(Named(id, name)) by {
      assert Named(id, "")["Name" := VStr(name)] == Named(id, name);
    }
    assert zero["Id" := VStr(id)] == Named(id, "");
    assert DecodeFields(NOBODY, fs, zero, data) == Some(Named(id, name));
  }

  lemma PeopleSeek(ids: nat -> string, q: Request, id: string, name: string)
    requires q == Request(["id", "name"], [PString(id), PString(name)])
    ensures KeysOf(PEOPLE) == Some(KEYS)
    ensures Seek(NOBODY, PEOPLE, ids, q) == Some(Sought(Asking(id, name), Named(id, name)))
  {
    PeopleKeys();
    PeopleScan(ids, q, id, name);
    PeopleDecode(id, name);
  }

  lemma PeopleMerge(id: string, name: string, id': string, name': string)
    requires id' != "" && name' != ""
    ensures var r := MergeFields(NOBODY, [ID, NAME], Named(id, name), Named(id', name'), UnSpec);
      r.dst == Named(id', name') && r.err == NoErr
  {
    var d, s := Named(id, name), Named(id', name');
    var fs := [ID, NAME];
    assert fs[1..] == [NAME] && [NAME][1..] == [];
    var r := MergeField(NOBODY, ID, d, s, UnSpec);
    assert r.dst == Named(id', name) && r.err == NoErr;
    var t := MergeField(NOBODY, NAME, r.dst, s, UnSpec);
    assert t.dst == Named(id', name') && t.err == NoErr;
    assert MergeFields(NOBODY, [], t.dst, s, UnSpec) == Out(t.dst, false, NoErr);
    var rest := MergeFields(NOBODY, [NAME], r.dst, s, UnSpec);
    assert rest.dst == t.dst && rest.err == NoErr;
  }

  lemma PeoplePlace()
    ensures Place(NOBODY, PEOPLE, KEYS.uks, Asking("A", "B"), [Person("A", "X"), Person("C", "B")], Named("A", "B"), Upsert)
      == RowsOut([Person("A", "B"), Person("C", "B")], Done, true)
  {
    var rows := [Person("A", "X"), Person("C", "B")];
    assert MatchesOn(KEYS.uks, Asking("A", "B"), rows[0], "id");
    assert FirstHit(KEYS.uks, Asking("A", "B"), rows) == 0;
    PeopleMerge("A", "X", "A", "B");
    assert rows[0 := Person("A", "B")] == [Person("A", "B"), Person("C", "B")];
  }

  lemma PeopleShare()
    ensures AllUnshared(KEYS.uks, [Person("A", "X"), Person("C", "B")])
    ensures !AllUnshared(KEYS.uks, [Person("A", "B"), Person("C", "B")])
  {
    var rows, after := [Person("A", "X"), Person("C", "B")], [Person("A", "B"), Person("C", "B")];
    assert Text(after[0], "Name") == Text(after[1], "Name") == Some("B");
    assert IsKey(KEYS.uks, "name") && !Unshared(KEYS.uks["name"].name, after);
    assert Unshared("Id", rows) && Unshared("Name", rows);
  }

  /** A is named X and C is named B; an Upsert of A named B succeeds on A and
      leaves both named B. */
  lemma UpsertCanShare(ids: nat -> string)
    ensures TableOk(NOBODY, PEOPLE) && KeysOf(PEOPLE) == Some(KEYS)
    ensures AllUnshared(KEYS.uks, [Person("A", "X"), Person("C", "B")])
    ensures InsertRows(NOBODY, PEOPLE, KEYS, ids, Request(["id", "name"], [PString("A"), PString("B")]), Upsert,
        [Person("A", "X"), Person("C", "B")]).0
      == RowsOut([Person("A", "B"), Person("C", "B")], Done, true)
    ensures !AllUnshared(KEYS.uks, [Person("A", "B"), Person("C", "B")])
  {
    var q, rows := Request(["id", "name"], [PString("A"), PString("B")]), [Person("A", "X"), Person("C", "B")];
    PeopleTable();
    PeopleSeek(ids, q, "A", "B");
    PeoplePlace();
    PeopleShare();
    InsertIsPlace(NOBODY, PEOPLE, ids, q, Upsert, rows);
  }
}
