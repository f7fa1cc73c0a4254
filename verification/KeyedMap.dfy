/** The rows of a table with one unique field are a map from key to struct, and
    every operation on them is the operation on that map. */
module KeyedMap {
  import opened GoTypes
  import opened Merge
  import opened MergeLaws
  import opened Decode
  import opened Paths
  import opened Rows

  /** A table the code can insert into: pointers to structs, one string primary
      key, distinct tags, a spec in order. */
  ghost predicate TableOk(zs: Zeros, f: FieldSpec) {
    && KeysOf(f).Some?
    && f.ref.Some?
    && FieldOk(zs, f)
    && DistinctTags(f.fields)
    && KeysOf(f).value.pk.typ == TString
  }

  /** The primary key is the only unique field. */
  ghost predicate OneUnique(f: FieldSpec)
    requires KeysOf(f).Some?
  {
    forall g :: g in f.fields && IsUnique(g) ==> g == KeysOf(f).value.pk
  }

  lemma PrimaryIsUnique(zs: Zeros, f: FieldSpec)
    requires TableOk(zs, f)
    ensures var k := KeysOf(f).value;
      && k.pk in f.fields && k.pk.tagName in k.uks && k.uks[k.pk.tagName] == k.pk
      && (forall t :: t in k.uks ==> k.uks[t] in f.fields && k.uks[t].tagName == t)
      && (OneUnique(f) ==> k.uks == map[k.pk.tagName := k.pk])
  {
    var k := KeysOf(f).value;
    PrimaryFieldIsOne(f.fields);
    UniqueFieldsHold(f.fields);
    assert k.pk in PrimaryFields(f.fields);
  }

  /** A row of a table that is hit is no nil pointer. */
  lemma HitIsPointer(zs: Zeros, f: FieldSpec, ukv: map<string, Pb>, rows: seq<Value>, i: nat)
    requires TableOk(zs, f) && RowsShaped(zs, f, rows) && i < |rows| && Hit(KeysOf(f).value.uks, ukv, rows[i])
    ensures rows[i].VPtr?
  {
  }

  lemma UniqueIsField(zs: Zeros, f: FieldSpec, t: string) returns (i: nat)
    requires TableOk(zs, f) && t in KeysOf(f).value.uks
    ensures i < |f.fields| && f.fields[i] == KeysOf(f).value.uks[t]
  {
    UniqueFieldsHold(f.fields);
    i :| 0 <= i < |f.fields| && f.fields[i] == KeysOf(f).value.uks[t];
  }

  lemma PrimaryInKeys(zs: Zeros, f: FieldSpec)
    requires TableOk(zs, f)
    ensures var k := KeysOf(f).value; k.pk.tagName in k.uks && k.uks[k.pk.tagName] == k.pk
  {
    PrimaryIsUnique(zs, f);
  }

  // ------------------------------------------------------ request and decoded row

  /** The scan puts exactly the unique tags of the request into the key map,
      with the value that will be decoded unless that one has no kind. */
  lemma {:induction false} ScanKeys(uks: map<string, FieldSpec>, ids: nat -> string, q: Request, n: nat)
    requires n <= |q.tags| == |q.values|
    ensures var s := ScanRequest(uks, ids, q, n);
      s.ok ==>
        && (forall t :: t in s.ukv <==> t in uks && t in s.data)
        && (forall t :: t in s.ukv ==> uks[t].typ == TString && (s.data[t] == s.ukv[t] || s.data[t] == Kindless))
    decreases n
  {
    if n > 0 {
      ScanKeys(uks, ids, q, n - 1);
    }
  }

  /** What Prepare leaves for the rest of insert. */
  lemma PreparedKeys(zs: Zeros, f: FieldSpec, ids: nat -> string, q: Request)
    requires TableOk(zs, f) && |q.tags| == |q.values|
    ensures var k := KeysOf(f).value; var p := Prepare(k, ids, q);
      p.ok ==>
        && k.pk.tagName in p.ukv
        && (forall t :: t in p.ukv <==> t in k.uks && t in p.data)
        && (forall t :: t in p.ukv ==> p.data[t] == p.ukv[t] || p.data[t] == Kindless)
  {
    PrimaryInKeys(zs, f);
    ScanKeys(KeysOf(f).value.uks, ids, q, |q.tags|);
  }

  /** In a request that can be decoded, the keys looked for are the strings of
      the decoded row. */
  lemma DecodedKeys(zs: Zeros, f: FieldSpec, p: Prepared, t: string)
    requires TableOk(zs, f) && DecodeRequest(zs, f, p.data).Some?
    requires t in KeysOf(f).value.uks && KeysOf(f).value.uks[t].typ == TString
    requires t in p.ukv <==> t in p.data
    requires t in p.ukv ==> p.data[t] == p.ukv[t] || p.data[t] == Kindless
    ensures TextIn(DecodeRequest(zs, f, p.data).value, KeysOf(f).value.uks[t].name)
         == Some(if t in p.ukv then StringOf(p.ukv[t]) else "")
  {
    PrimaryIsUnique(zs, f);
    var zero, g := ZeroOf(zs, f.ref.value), KeysOf(f).value.uks[t];
    var i :| 0 <= i < |f.fields| && f.fields[i] == g;
    assert ZeroValue(zs, f.fields[i], zero[g.name]);
    DecodedString(zs, f.fields, zero, p.data, i);
    assert t in p.data ==> !HasKindless(p.data[t]);
  }

  lemma RequestIsShaped(zs: Zeros, f: FieldSpec, data: map<string, Pb>)
    requires TableOk(zs, f) && DecodeRequest(zs, f, data).Some?
    ensures Shaped(zs, f.fields, DecodeRequest(zs, f, data).value)
    ensures Shaped(zs, f.fields, ZeroOf(zs, f.ref.value))
  {
    ZeroIsShaped(zs, f.fields, ZeroOf(zs, f.ref.value));
    DecodedIsShaped(zs, f.fields, ZeroOf(zs, f.ref.value), data);
  }

  /** The unique fields that are strings; a request for another is refused. */
  predicate IsKey(uks: map<string, FieldSpec>, t: string) {
    t in uks && uks[t].typ == TString
  }

  /** ukv holds what req says for every unique field, and "" where req says nothing. */
  ghost predicate KeysOfRequest(uks: map<string, FieldSpec>, ukv: map<string, Pb>, req: Fields) {
    forall t :: IsKey(uks, t) ==> TextIn(req, uks[t].name) == Some(if t in ukv then StringOf(ukv[t]) else "")
  }

  /** What insert looks for are the keys of the row it merges. */
  lemma SoughtKeys(zs: Zeros, f: FieldSpec, ids: nat -> string, q: Request)
    requires TableOk(zs, f) && Seek(zs, f, ids, q).Some?
    ensures var s := Seek(zs, f, ids, q).value;
      && Shaped(zs, f.fields, s.req) && KeysOfRequest(KeysOf(f).value.uks, s.ukv, s.req)
      && KeysOf(f).value.pk.tagName in s.ukv
  {
    var uks, p := KeysOf(f).value.uks, Prepare(KeysOf(f).value, ids, q);
    RequestIsShaped(zs, f, p.data);
    PreparedKeys(zs, f, ids, q);
    forall t | IsKey(uks, t)
      ensures TextIn(DecodeRequest(zs, f, p.data).value, uks[t].name) == Some(if t in p.ukv then StringOf(p.ukv[t]) else "")
    {
      DecodedKeys(zs, f, p, t);
    }
  }

  // ------------------------------------------------------------- rows as a map

  /** No two rows have the same key. */
  ghost predicate KeysDistinct(name: string, rows: seq<Value>) {
    forall i, j :: 0 <= i < j < |rows| && Text(rows[i], name).Some? ==> Text(rows[i], name) != Text(rows[j], name)
  }

  ghost predicate HasKey(name: string, rows: seq<Value>, key: string) {
    exists i :: 0 <= i < |rows| && Text(rows[i], name) == Some(key)
  }

  /** m maps the key of every row to its struct, and holds nothing else. */
  ghost predicate Represents(name: string, rows: seq<Value>, m: map<string, Fields>) {
    && (forall i :: 0 <= i < |rows| && Text(rows[i], name).Some? ==> RowIn(name, rows[i], m))
    && (forall key :: key in m ==> HasKey(name, rows, key))
  }

  ghost predicate RowIn(name: string, x: Value, m: map<string, Fields>)
    requires Text(x, name).Some?
  {
    Text(x, name).value in m && m[Text(x, name).value] == StructOf(x)
  }

  function StructOf(x: Value): Fields
    requires x.VPtr? || x.VStruct?
  {
    if x.VPtr? then x.target else x.fields
  }

  /** The rows as a map, built row by row. */
  function AsMap(name: string, rows: seq<Value>): map<string, Fields> {
    if rows == [] then map[]
    else
      var m, x := AsMap(name, rows[..|rows| - 1]), rows[|rows| - 1];
      if Text(x, name).Some? then m[Text(x, name).value := StructOf(x)] else m
  }

  lemma RepresentsAppend(name: string, rows: seq<Value>, m: map<string, Fields>, x: Value)
    requires KeysDistinct(name, rows) && Represents(name, rows, m)
    requires Text(x, name).Some? && !HasKey(name, rows, Text(x, name).value)
    ensures KeysDistinct(name, rows + [x])
    ensures Represents(name, rows + [x], m[Text(x, name).value := StructOf(x)])
  {
    var rows', m' := rows + [x], m[Text(x, name).value := StructOf(x)];
    forall i | 0 <= i < |rows'| && Text(rows'[i], name).Some? ensures RowIn(name, rows'[i], m') {
      if i < |rows| {
        assert rows'[i] == rows[i] && RowIn(name, rows[i], m);
      }
    }
    forall key | key in m' ensures HasKey(name, rows', key) {
      if key in m {
        var i :| 0 <= i < |rows| && Text(rows[i], name) == Some(key);
        assert rows'[i] == rows[i];
      } else {
        assert rows'[|rows|] == x;
      }
    }
  }

  lemma {:induction false} AsMapRepresents(name: string, rows: seq<Value>)
    requires KeysDistinct(name, rows)
    ensures Represents(name, rows, AsMap(name, rows))
    decreases |rows|
  {
    if rows != [] {
      var front, x := rows[..|rows| - 1], rows[|rows| - 1];
      AsMapRepresents(name, front);
      assert rows == front + [x];
      if Text(x, name).Some? {
        RepresentsAppend(name, front, AsMap(name, front), x);
      }
    }
  }

  lemma RepresentsUpdate(name: string, rows: seq<Value>, m: map<string, Fields>, i: nat, x: Value)
    requires KeysDistinct(name, rows) && Represents(name, rows, m)
    requires i < |rows| && Text(x, name).Some? && Text(rows[i], name) == Text(x, name)
    ensures KeysDistinct(name, rows[i := x])
    ensures Represents(name, rows[i := x], m[Text(x, name).value := StructOf(x)])
  {
    var rows', m' := rows[i := x], m[Text(x, name).value := StructOf(x)];
    forall j | 0 <= j < |rows'| && Text(rows'[j], name).Some? ensures RowIn(name, rows'[j], m') {
      if j != i {
        assert rows'[j] == rows[j] && RowIn(name, rows[j], m);
      }
    }
    assert RowIn(name, rows[i], m);
    forall key | key in m' ensures HasKey(name, rows', key) {
      var j :| 0 <= j < |rows| && Text(rows[j], name) == Some(key);
      assert Text(rows'[j], name) == Some(key);
    }
  }

  lemma RepresentsRemove(name: string, rows: seq<Value>, m: map<string, Fields>, i: nat)
    requires KeysDistinct(name, rows) && Represents(name, rows, m)
    requires i < |rows| && Text(rows[i], name).Some?
    ensures KeysDistinct(name, rows[..i] + rows[i + 1..])
    ensures Represents(name, rows[..i] + rows[i + 1..], m - {Text(rows[i], name).value})
  {
    var key, rows' := Text(rows[i], name).value, rows[..i] + rows[i + 1..];
    var m' := m - {key};
    forall j | 0 <= j < |rows'| ensures rows'[j] == rows[if j < i then j else j + 1] {}
    forall j | 0 <= j < |rows'| && Text(rows'[j], name).Some? ensures RowIn(name, rows'[j], m') {
      var l := if j < i then j else j + 1;
      assert rows'[j] == rows[l] && RowIn(name, rows[l], m);
    }
    forall x | x in m' ensures HasKey(name, rows', x) {
      var j :| 0 <= j < |rows| && Text(rows[j], name) == Some(x);
      var l := if j < i then j else j - 1;
      assert rows'[l] == rows[j];
    }
  }

  // ------------------------------------------------------ operations on the map

  /** A map after an operation, its outcome, and whether it flushes. */
  datatype MapOut = MapOut(m: map<string, Fields>, res: Outcome, flush: bool)

  /** Insert is put or conflict, Igsert put if absent, Upsert put or merge into
      the entry; a merge that fails keeps what it wrote by then. */
  function PutKey(zs: Zeros, f: FieldSpec, m: map<string, Fields>, key: string, req: Fields, mode: Mode): MapOut
    requires f.ref.Some?
  {
    if key in m then
      match mode
      case Raw => MapOut(m, Conflict, false)
      case Igsert => MapOut(m, Done, false)
      case Upsert =>
        var r := MergeFields(zs, f.fields, m[key], req, UnSpec);
        if r.err == NoErr then MapOut(m[key := r.dst], Done, true) else MapOut(m[key := r.dst], Refused, false)
    else
      var r := MergeFields(zs, f.fields, ZeroOf(zs, f.ref.value), req, UnSpec);
      if r.err == NoErr then MapOut(m[key := r.dst], Done, true) else MapOut(m, Refused, false)
  }

  function InsertKey(zs: Zeros, f: FieldSpec, ids: nat -> string, q: Request, mode: Mode, m: map<string, Fields>): MapOut
    requires KeysOf(f).Some? && f.ref.Some?
  {
    var tag := KeysOf(f).value.pk.tagName;
    match Seek(zs, f, ids, q)
    case None => MapOut(m, Refused, false)
    case Some(s) =>
      if tag !in s.ukv then MapOut(m, Refused, false) else PutKey(zs, f, m, StringOf(s.ukv[tag]), s.req, mode)
  }

  function RemoveKey(pk: FieldSpec, conds: seq<Condition>, m: map<string, Fields>): MapOut {
    match DeleteKey(pk, conds)
    case Some(Some(key)) => if key in m then MapOut(m - {key}, Done, true) else MapOut(m, Done, false)
    case _ => MapOut(m, Refused, false)
  }

  /** The rows of a table are the map m, with distinct keys. */
  ghost predicate Keyed(zs: Zeros, f: FieldSpec, rows: seq<Value>, m: map<string, Fields>)
    requires KeysOf(f).Some?
  {
    var name := KeysOf(f).value.pk.name;
    RowsShaped(zs, f, rows) && KeysDistinct(name, rows) && Represents(name, rows, m)
  }

  /** The rows that come out are the map that comes out, with the same outcome. */
  ghost predicate Refines(zs: Zeros, f: FieldSpec, out: RowsOut, abs: MapOut)
    requires KeysOf(f).Some?
  {
    Keyed(zs, f, out.rows, abs.m) && out.res == abs.res && out.flush == abs.flush
  }

  /** A hit on the one unique field is a hit on the key. */
  lemma HitIsKey(zs: Zeros, f: FieldSpec, ukv: map<string, Pb>, x: Value)
    requires TableOk(zs, f) && OneUnique(f) && KeysOf(f).value.pk.tagName in ukv
    ensures Hit(KeysOf(f).value.uks, ukv, x)
       <==> Text(x, KeysOf(f).value.pk.name) == Some(StringOf(ukv[KeysOf(f).value.pk.tagName]))
  {
    PrimaryIsUnique(zs, f);
    var k := KeysOf(f).value;
    if Text(x, k.pk.name) == Some(StringOf(ukv[k.pk.tagName])) {
      assert MatchesOn(k.uks, ukv, x, k.pk.tagName);
    }
  }

  /** Merging req, whose key is `key`, into a struct with that key, or into the
      zero struct, gives a struct with that key, error or not. */
  lemma MergedKey(zs: Zeros, f: FieldSpec, d: Fields, req: Fields, key: string)
    requires TableOk(zs, f) && Shaped(zs, f.fields, d) && Shaped(zs, f.fields, req)
    requires TextIn(req, KeysOf(f).value.pk.name) == Some(key)
    ensures var r := MergeFields(zs, f.fields, d, req, UnSpec); var name := KeysOf(f).value.pk.name;
      && Shaped(zs, f.fields, r.dst)
      && (TextIn(d, name) == Some(key) ==> TextIn(r.dst, name) == Some(key))
      && (TextIn(d, name) == Some("") && r.err == NoErr ==> TextIn(r.dst, name) == Some(key))
  {
    PrimaryIsUnique(zs, f);
    var pk := KeysOf(f).value.pk;
    var i :| 0 <= i < |f.fields| && f.fields[i] == pk;
    StringFieldAfterMerge(zs, f.fields, d, req, i);
    KeepsShape(zs, f.fields, d, req, UnSpec);
  }

  /** Merging into the row with the key is merging into the map's entry. */
  lemma MergeIntoRow(zs: Zeros, f: FieldSpec, rows: seq<Value>, m: map<string, Fields>, i: nat, req: Fields, key: string)
    requires TableOk(zs, f) && Keyed(zs, f, rows, m) && i < |rows| && Shaped(zs, f.fields, req)
    requires Text(rows[i], KeysOf(f).value.pk.name) == Some(key) && TextIn(req, KeysOf(f).value.pk.name) == Some(key)
    ensures key in m && m[key] == Deref(zs, rows[i])
    ensures var r := MergeFields(zs, f.fields, m[key], req, UnSpec);
      Keyed(zs, f, rows[i := Rewrap(rows[i], r.dst)], m[key := r.dst])
  {
    var name := KeysOf(f).value.pk.name;
    assert RowIn(name, rows[i], m) && ShapedStruct(zs, f, rows[i]);
    MergedKey(zs, f, m[key], req, key);
    var x := Rewrap(rows[i], MergeFields(zs, f.fields, m[key], req, UnSpec).dst);
    RepresentsUpdate(name, rows, m, i, x);
    assert ShapedStruct(zs, f, x);
  }

  /** Appending the merge of req into a zero row is adding an entry. */
  lemma AppendRow(zs: Zeros, f: FieldSpec, rows: seq<Value>, m: map<string, Fields>, req: Fields, key: string)
    requires TableOk(zs, f) && Keyed(zs, f, rows, m) && Shaped(zs, f.fields, req)
    requires TextIn(req, KeysOf(f).value.pk.name) == Some(key) && !HasKey(KeysOf(f).value.pk.name, rows, key)
    requires MergeFields(zs, f.fields, ZeroOf(zs, f.ref.value), req, UnSpec).err == NoErr
    ensures var r := MergeFields(zs, f.fields, ZeroOf(zs, f.ref.value), req, UnSpec);
      Keyed(zs, f, rows + [VPtr(f.ref.value, r.dst)], m[key := r.dst])
  {
    ZeroKey(zs, f);
    MergedKey(zs, f, ZeroOf(zs, f.ref.value), req, key);
    var x := VPtr(f.ref.value, MergeFields(zs, f.fields, ZeroOf(zs, f.ref.value), req, UnSpec).dst);
    RepresentsAppend(KeysOf(f).value.pk.name, rows, m, x);
    assert ShapedStruct(zs, f, x);
  }

  lemma NoHitNoKey(zs: Zeros, f: FieldSpec, ukv: map<string, Pb>, rows: seq<Value>)
    requires TableOk(zs, f) && OneUnique(f) && KeysOf(f).value.pk.tagName in ukv
    requires forall j :: 0 <= j < |rows| ==> !Hit(KeysOf(f).value.uks, ukv, rows[j])
    ensures !HasKey(KeysOf(f).value.pk.name, rows, StringOf(ukv[KeysOf(f).value.pk.tagName]))
  {
    forall j | 0 <= j < |rows|
      ensures Text(rows[j], KeysOf(f).value.pk.name) != Some(StringOf(ukv[KeysOf(f).value.pk.tagName]))
    {
      HitIsKey(zs, f, ukv, rows[j]);
    }
  }

  lemma HitRefines(zs: Zeros, f: FieldSpec, ukv: map<string, Pb>, rows: seq<Value>, m: map<string, Fields>,
      req: Fields, mode: Mode, key: string)
    requires TableOk(zs, f) && Keyed(zs, f, rows, m) && Shaped(zs, f.fields, req)
    requires var i := FirstHit(KeysOf(f).value.uks, ukv, rows);
      i < |rows| && Text(rows[i], KeysOf(f).value.pk.name) == Some(key)
    requires TextIn(req, KeysOf(f).value.pk.name) == Some(key)
    ensures Refines(zs, f, Place(zs, f, KeysOf(f).value.uks, ukv, rows, req, mode), PutKey(zs, f, m, key, req, mode))
  {
    MergeIntoRow(zs, f, rows, m, FirstHit(KeysOf(f).value.uks, ukv, rows), req, key);
  }

  lemma MissRefines(zs: Zeros, f: FieldSpec, ukv: map<string, Pb>, rows: seq<Value>, m: map<string, Fields>,
      req: Fields, mode: Mode, key: string)
    requires TableOk(zs, f) && Keyed(zs, f, rows, m) && Shaped(zs, f.fields, req)
    requires FirstHit(KeysOf(f).value.uks, ukv, rows) == |rows| && !HasKey(KeysOf(f).value.pk.name, rows, key)
    requires TextIn(req, KeysOf(f).value.pk.name) == Some(key)
    ensures Refines(zs, f, Place(zs, f, KeysOf(f).value.uks, ukv, rows, req, mode), PutKey(zs, f, m, key, req, mode))
  {
    if MergeFields(zs, f.fields, ZeroOf(zs, f.ref.value), req, UnSpec).err == NoErr {
      AppendRow(zs, f, rows, m, req, key);
    }
  }

  lemma PlaceRefines(zs: Zeros, f: FieldSpec, ukv: map<string, Pb>, rows: seq<Value>, m: map<string, Fields>,
      req: Fields, mode: Mode, key: string)
    requires TableOk(zs, f) && OneUnique(f) && Keyed(zs, f, rows, m) && Shaped(zs, f.fields, req)
    requires KeysOf(f).value.pk.tagName in ukv && StringOf(ukv[KeysOf(f).value.pk.tagName]) == key
    requires TextIn(req, KeysOf(f).value.pk.name) == Some(key)
    ensures Refines(zs, f, Place(zs, f, KeysOf(f).value.uks, ukv, rows, req, mode), PutKey(zs, f, m, key, req, mode))
  {
    var i := FirstHit(KeysOf(f).value.uks, ukv, rows);
    if i < |rows| {
      HitIsKey(zs, f, ukv, rows[i]);
      HitRefines(zs, f, ukv, rows, m, req, mode, key);
    } else {
      NoHitNoKey(zs, f, ukv, rows);
      MissRefines(zs, f, ukv, rows, m, req, mode, key);
    }
  }

  lemma ZeroKey(zs: Zeros, f: FieldSpec)
    requires TableOk(zs, f)
    ensures Shaped(zs, f.fields, ZeroOf(zs, f.ref.value))
    ensures TextIn(ZeroOf(zs, f.ref.value), KeysOf(f).value.pk.name) == Some("")
  {
    PrimaryIsUnique(zs, f);
    ZeroIsShaped(zs, f.fields, ZeroOf(zs, f.ref.value));
    var pk := KeysOf(f).value.pk;
    var i :| 0 <= i < |f.fields| && f.fields[i] == pk;
    assert ZeroValue(zs, f.fields[i], ZeroOf(zs, f.ref.value)[pk.name]);
  }

  /** Insert, Igsert and Upsert on the rows are put, put-if-absent and
      put-or-merge on the map; keys stay distinct, failing calls included. */
  lemma InsertRefines(zs: Zeros, f: FieldSpec, ids: nat -> string, q: Request, mode: Mode, rows: seq<Value>,
      m: map<string, Fields>)
    requires TableOk(zs, f) && OneUnique(f) && Keyed(zs, f, rows, m)
    ensures Refines(zs, f, InsertRows(zs, f, KeysOf(f).value, ids, q, mode, rows).0, InsertKey(zs, f, ids, q, mode, m))
  {
    InsertIsPlace(zs, f, ids, q, mode, rows);
    if Seek(zs, f, ids, q).Some? {
      var s, pk := Seek(zs, f, ids, q).value, KeysOf(f).value.pk;
      SoughtKeys(zs, f, ids, q);
      PrimaryIsUnique(zs, f);
      assert IsKey(KeysOf(f).value.uks, pk.tagName);
      PlaceRefines(zs, f, s.ukv, rows, m, s.req, mode, StringOf(s.ukv[pk.tagName]));
    }
  }

  lemma StayShaped(zs: Zeros, f: FieldSpec, rows: seq<Value>, i: nat)
    requires RowsShaped(zs, f, rows) && i < |rows|
    ensures RowsShaped(zs, f, rows[..i] + rows[i + 1..])
  {
    var rest := rows[..i] + rows[i + 1..];
    forall j | 0 <= j < |rest| ensures ShapedStruct(zs, f, rest[j]) {
      assert rest[j] == rows[if j < i then j else j + 1];
    }
  }

  lemma KeyIsThere(name: string, rows: seq<Value>, m: map<string, Fields>, key: string)
    requires Represents(name, rows, m)
    ensures FirstWithKey(name, key, rows) < |rows| <==> key in m
  {
    var i := FirstWithKey(name, key, rows);
    if i < |rows| {
      assert RowIn(name, rows[i], m);
    } else {
      assert !HasKey(name, rows, key);
    }
  }

  lemma RemoveRow(zs: Zeros, f: FieldSpec, rows: seq<Value>, m: map<string, Fields>, key: string)
    requires KeysOf(f).Some? && Keyed(zs, f, rows, m)
    ensures var name := KeysOf(f).value.pk.name; var i := FirstWithKey(name, key, rows);
      && (i < |rows| <==> key in m)
      && (i < |rows| ==> Keyed(zs, f, rows[..i] + rows[i + 1..], m - {key}))
  {
    var name := KeysOf(f).value.pk.name;
    var i := FirstWithKey(name, key, rows);
    KeyIsThere(name, rows, m, key);
    if i < |rows| {
      RepresentsRemove(name, rows, m, i);
      StayShaped(zs, f, rows, i);
    }
  }

  lemma KeyRemoved(zs: Zeros, f: FieldSpec, conds: seq<Condition>, rows: seq<Value>, m: map<string, Fields>, key: string)
    requires KeysOf(f).Some? && Keyed(zs, f, rows, m)
    requires DeleteKey(KeysOf(f).value.pk, conds) == Some(Some(key))
    ensures Refines(zs, f, DeleteRows(KeysOf(f).value.pk, conds, rows), RemoveKey(KeysOf(f).value.pk, conds, m))
  {
    RemoveRow(zs, f, rows, m, key);
  }

  /** Delete on the rows is remove on the map. */
  lemma DeleteRefines(zs: Zeros, f: FieldSpec, conds: seq<Condition>, rows: seq<Value>, m: map<string, Fields>)
    requires KeysOf(f).Some? && Keyed(zs, f, rows, m)
    ensures Refines(zs, f, DeleteRows(KeysOf(f).value.pk, conds, rows), RemoveKey(KeysOf(f).value.pk, conds, m))
  {
    match DeleteKey(KeysOf(f).value.pk, conds)
    case Some(Some(key)) => KeyRemoved(zs, f, conds, rows, m, key);
    case _ =>
  }

  /** An entry can be deleted exactly if its key is not white space only. */
  lemma DeletableIff(pk: FieldSpec, key: string, m: map<string, Fields>)
    requires pk.typ == TString && key in m
    ensures (exists conds :: key !in RemoveKey(pk, conds, m).m) <==> !AllWhite(key)
  {
    if AllWhite(key) {
      forall conds ensures key in RemoveKey(pk, conds, m).m {
        NamedIsNotBlank(pk, conds);
      }
    } else {
      var conds := [Condition(pk.tagName, Some(PString(key)))];
      BlankIff(key);
      assert conds[..0] == [] && DeleteKey(pk, conds) == Some(Some(key));
      assert key !in RemoveKey(pk, conds, m).m;
    }
  }
}
