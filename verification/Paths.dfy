/** Where the rows of a table live: the path TableSetup finds in the spec and
    the slice findValue reaches in the object. */
module Paths {
  import opened GoTypes

  // --------------------------------------------------------------- unique keys

  predicate IsPrimary(f: FieldSpec) {
    PrimaryKey in f.attrs
  }

  predicate IsUnique(f: FieldSpec) {
    IsPrimary(f) || UniqueKey in f.attrs
  }

  function PrimaryFields(fs: seq<FieldSpec>): seq<FieldSpec> {
    if fs == [] then []
    else PrimaryFields(fs[..|fs| - 1]) + (if IsPrimary(fs[|fs| - 1]) then [fs[|fs| - 1]] else [])
  }

  /** The unique fields by tag, the primary one among them. */
  function UniqueFields(fs: seq<FieldSpec>): map<string, FieldSpec> {
    if fs == [] then map[]
    else
      var front, last := UniqueFields(fs[..|fs| - 1]), fs[|fs| - 1];
      if IsUnique(last) then front[last.tagName := last] else front
  }

  /** A table has exactly one primary key, or none the code can use. */
  datatype Keys = Keys(pk: FieldSpec, uks: map<string, FieldSpec>)

  function KeysOf(f: FieldSpec): Option<Keys> {
    if f.typ == TArray(SStruct) && |PrimaryFields(f.fields)| == 1
    then Some(Keys(PrimaryFields(f.fields)[0], UniqueFields(f.fields)))
    else None
  }

  /** What the loop of PrimaryKeys collects in two lists. */
  method PrimaryKeys(f: FieldSpec) returns (keys: Option<Keys>)
    ensures keys == KeysOf(f)
  {
    if f.typ != TArray(SStruct) {
      return None;
    }
    var pkeys: seq<FieldSpec> := [];
    var ukeys: map<string, FieldSpec> := map[];
    for i := 0 to |f.fields|
      invariant pkeys == PrimaryFields(f.fields[..i])
      invariant ukeys == UniqueFields(f.fields[..i])
    {
      var field := f.fields[i];
      assert f.fields[..i + 1][..i] == f.fields[..i];
      if PrimaryKey in field.attrs {
        pkeys := pkeys + [field];
        ukeys := ukeys[field.tagName := field];
      } else if UniqueKey in field.attrs {
        ukeys := ukeys[field.tagName := field];
      }
    }
    assert f.fields[..|f.fields|] == f.fields;
    if |pkeys| == 1 {
      return Some(Keys(pkeys[0], ukeys));
    }
    return None;
  }

  lemma {:induction false} PrimaryFieldIsOne(fs: seq<FieldSpec>)
    ensures forall f :: f in PrimaryFields(fs) <==> f in fs && IsPrimary(f)
    decreases |fs|
  {
    if fs != [] {
      PrimaryFieldIsOne(fs[..|fs| - 1]);
      assert fs == fs[..|fs| - 1] + [fs[|fs| - 1]];
    }
  }

  /** Tags within one struct are distinct. */
  ghost predicate DistinctTags(fs: seq<FieldSpec>) {
    forall i, j :: 0 <= i < j < |fs| ==> fs[i].tagName != fs[j].tagName
  }

  /** With distinct tags, the map holds exactly the unique fields. */
  lemma {:induction false} UniqueFieldsHold(fs: seq<FieldSpec>)
    requires DistinctTags(fs)
    ensures forall t :: t in UniqueFields(fs) ==>
      UniqueFields(fs)[t] in fs && IsUnique(UniqueFields(fs)[t]) && UniqueFields(fs)[t].tagName == t
    ensures forall i :: 0 <= i < |fs| && IsUnique(fs[i]) ==>
      fs[i].tagName in UniqueFields(fs) && UniqueFields(fs)[fs[i].tagName] == fs[i]
    decreases |fs|
  {
    if fs != [] {
      UniqueFieldsHold(fs[..|fs| - 1]);
    }
  }

  /** Field i and no other is primary. */
  ghost predicate OnlyPrimaryAt(fs: seq<FieldSpec>, i: int) {
    0 <= i < |fs| && forall j :: 0 <= j < |fs| ==> (PrimaryKey in fs[j].attrs <==> j == i)
  }

  /** f is the only primary field of fs. */
  ghost predicate OnlyPrimary(fs: seq<FieldSpec>, f: FieldSpec) {
    exists i :: OnlyPrimaryAt(fs, i) && fs[i] == f
  }

  lemma {:induction false} PrimaryFieldsIff(fs: seq<FieldSpec>, f: FieldSpec)
    ensures PrimaryFields(fs) == [] <==> forall j :: 0 <= j < |fs| ==> PrimaryKey !in fs[j].attrs
    ensures PrimaryFields(fs) == [f] <==> OnlyPrimary(fs, f)
    decreases |fs|
  {
    if fs != [] {
      var n := |fs| - 1;
      var front, last := fs[..n], fs[n];
      PrimaryFieldsIff(front, f);
      assert forall j :: 0 <= j < n ==> front[j] == fs[j];
      if IsPrimary(last) {
        assert PrimaryFields(fs) == PrimaryFields(front) + [last];
        assert PrimaryFields(fs) == [f] <==> PrimaryFields(front) == [] && last == f by {
          assert |PrimaryFields(fs)| == |PrimaryFields(front)| + 1;
          assert PrimaryFields(fs)[|PrimaryFields(front)|] == last;
        }
        assert OnlyPrimary(fs, f) <==> OnlyPrimaryAt(fs, n) && last == f;
      } else {
        assert forall i :: OnlyPrimaryAt(fs, i) <==> OnlyPrimaryAt(front, i);
      }
    }
  }

  /** A spec is that of a table exactly if it is a slice of structs with one
      primary field; and its keys are the fields with one of the two attributes. */
  lemma KeysIff(f: FieldSpec, pk: FieldSpec)
    requires DistinctTags(f.fields)
    ensures (KeysOf(f).Some? && KeysOf(f).value.pk == pk) <==> f.typ == TArray(SStruct) && OnlyPrimary(f.fields, pk)
    ensures KeysOf(f).Some? ==> forall t, g :: (t in KeysOf(f).value.uks && KeysOf(f).value.uks[t] == g) <==>
      g in f.fields && g.tagName == t && (PrimaryKey in g.attrs || UniqueKey in g.attrs)
  {
    PrimaryFieldsIff(f.fields, pk);
    UniqueFieldsHold(f.fields);
    if KeysOf(f).Some? {
      assert PrimaryFields(f.fields) == [KeysOf(f).value.pk];
    }
  }

  // --------------------------------------------------------------------- paths

  datatype Table = Table(tags: seq<string>, path: seq<string>, field: FieldSpec)

  function FirstTag(fs: seq<FieldSpec>, tag: string): (r: Option<FieldSpec>)
    ensures r.Some? ==> r.value in fs && r.value.tagName == tag
    ensures r.None? ==> forall i :: 0 <= i < |fs| ==> fs[i].tagName != tag
  {
    if fs == [] then None
    else if fs[0].tagName == tag then Some(fs[0])
    else FirstTag(fs[1..], tag)
  }

  /** With distinct tags the first field with a tag is the one. */
  lemma {:induction false} FirstTagIs(fs: seq<FieldSpec>, tag: string, k: nat)
    requires DistinctTags(fs) && k < |fs| && fs[k].tagName == tag
    ensures FirstTag(fs, tag) == Some(fs[k])
    decreases |fs|
  {
    if k > 0 {
      assert fs[0].tagName != fs[k].tagName;
      FirstTagIs(fs[1..], tag, k - 1);
    }
  }

  /** The table at a list of tags: struct fields down to a slice of structs with
      a primary key. */
  function FindTable(tags: seq<string>, fs: seq<FieldSpec>): (r: Option<Table>)
    ensures r.Some? ==> r.value.tags == tags && |r.value.path| == |tags| > 0
    ensures r.Some? ==> KeysOf(r.value.field).Some?
    ensures r.Some? ==> FirstTag(fs, tags[0]).Some? && r.value.path[0] == FirstTag(fs, tags[0]).value.name
    decreases |tags|
  {
    if tags == [] then None
    else
      match FirstTag(fs, tags[0])
      case None => None
      case Some(f) =>
        if |tags| > 1 then
          if f.typ != TStruct then None
          else
            match FindTable(tags[1..], f.fields)
            case None => None
            case Some(t) => Some(Table(tags, [f.name] + t.path, t.field))
        else if f.typ != TArray(SStruct) || KeysOf(f).None? then None
        else Some(Table(tags, [f.name], f))
  }

  /** chain are the specs that the tags name in turn: struct fields, then a slice
      with a primary key. */
  ghost predicate Leads(tags: seq<string>, fs: seq<FieldSpec>, chain: seq<FieldSpec>)
    decreases |tags|
  {
    && |chain| == |tags| > 0
    && FirstTag(fs, tags[0]) == Some(chain[0])
    && if |tags| == 1 then KeysOf(chain[0]).Some?
       else chain[0].typ == TStruct && Leads(tags[1..], chain[0].fields, chain[1..])
  }

  /** A table is found exactly when the tags lead to one; its path are the names
      on the way and its field is the last. */
  lemma {:induction false} FoundIffLeads(tags: seq<string>, fs: seq<FieldSpec>, chain: seq<FieldSpec>)
    ensures Leads(tags, fs, chain) ==> FindTable(tags, fs).Some?
    ensures Leads(tags, fs, chain) ==> var t := FindTable(tags, fs).value;
      t.field == chain[|chain| - 1] && forall i :: 0 <= i < |chain| ==> t.path[i] == chain[i].name
    decreases |tags|
  {
    if Leads(tags, fs, chain) && |tags| > 1 {
      FoundIffLeads(tags[1..], chain[0].fields, chain[1..]);
      var t := FindTable(tags[1..], chain[0].fields).value;
      assert FindTable(tags, fs).value.path == [chain[0].name] + t.path;
      forall i | 0 < i < |chain| ensures t.path[i - 1] == chain[i].name {
        assert chain[1..][i - 1] == chain[i];
      }
    }
  }

  lemma {:induction false} FoundLeads(tags: seq<string>, fs: seq<FieldSpec>) returns (chain: seq<FieldSpec>)
    requires FindTable(tags, fs).Some?
    ensures Leads(tags, fs, chain)
    decreases |tags|
  {
    var f := FirstTag(fs, tags[0]).value;
    chain := [f];
    if |tags| > 1 {
      var rest := FoundLeads(tags[1..], f.fields);
      chain := [f] + rest;
      assert chain[1..] == rest;
    }
  }

  /** Every struct on the way is held by value. */
  ghost predicate ByValue(tags: seq<string>, fs: seq<FieldSpec>)
    requires FindTable(tags, fs).Some?
    decreases |tags|
  {
    |tags| > 1 ==>
      var f := FirstTag(fs, tags[0]).value;
      f.ref.None? && ByValue(tags[1..], f.fields)
  }

  /** The elements of the slice at a path; nothing behind a pointer is reached. */
  function FindValue(path: seq<string>, obj: Fields): Option<seq<Value>>
    decreases |path|
  {
    if path == [] || path[0] !in obj then None
    else if |path| > 1 then
      if obj[path[0]].VStruct? then FindValue(path[1..], obj[path[0]].fields) else None
    else if obj[path[0]].VSlice? then Some(obj[path[0]].items)
    else None
  }

  /** The object with the slice at a path replaced. */
  function SetValue(path: seq<string>, obj: Fields, items: seq<Value>): Fields
    requires FindValue(path, obj).Some?
    decreases |path|
  {
    if |path| > 1
    then obj[path[0] := VStruct(SetValue(path[1..], obj[path[0]].fields, items))]
    else obj[path[0] := VSlice(items)]
  }

  /** Nothing but the field on the way to the slice is replaced, at every level. */
  lemma {:induction false} SetFrame(path: seq<string>, obj: Fields, items: seq<Value>)
    requires FindValue(path, obj).Some?
    ensures var after := SetValue(path, obj, items);
      && after.Keys == obj.Keys
      && (forall k :: k in obj && k != path[0] ==> after[k] == obj[k])
      && (|path| == 1 ==> after[path[0]] == VSlice(items))
      && (|path| > 1 ==> obj[path[0]].VStruct? && after[path[0]] == VStruct(SetValue(path[1..], obj[path[0]].fields, items)))
    decreases |path|
  {
    if |path| > 1 {
      SetFrame(path[1..], obj[path[0]].fields, items);
    }
  }

  lemma {:induction false} GetAfterSet(path: seq<string>, obj: Fields, items: seq<Value>)
    requires FindValue(path, obj).Some?
    ensures FindValue(path, SetValue(path, obj, items)) == Some(items)
    decreases |path|
  {
    if |path| > 1 {
      GetAfterSet(path[1..], obj[path[0]].fields, items);
    }
  }

  lemma {:induction false} SetSame(path: seq<string>, obj: Fields)
    requires FindValue(path, obj).Some?
    ensures SetValue(path, obj, FindValue(path, obj).value) == obj
    decreases |path|
  {
    if |path| > 1 {
      SetSame(path[1..], obj[path[0]].fields);
    }
  }

  /** Neither path is a prefix of the other. */
  predicate Apart(p: seq<string>, q: seq<string>) {
    !(p <= q) && !(q <= p)
  }

  lemma HeadsApart(p: seq<string>, q: seq<string>)
    requires p != [] && q != [] && p[0] != q[0]
    ensures Apart(p, q)
  {
  }

  lemma TailsApart(p: seq<string>, q: seq<string>)
    requires p != [] && q != [] && Apart(p[1..], q[1..])
    ensures Apart(p, q)
  {
  }

  /** Replacing one slice leaves a slice on a separate path alone. */
  lemma {:induction false} GetAfterSetElsewhere(p: seq<string>, q: seq<string>, obj: Fields, items: seq<Value>)
    requires FindValue(p, obj).Some? && Apart(p, q)
    ensures FindValue(q, SetValue(p, obj, items)) == FindValue(q, obj)
    decreases |p|
  {
    if q != [] && p[0] == q[0] && |p| > 1 && |q| > 1 {
      assert p[1..] <= q[1..] ==> p <= q;
      assert q[1..] <= p[1..] ==> q <= p;
      GetAfterSetElsewhere(p[1..], q[1..], obj[p[0]].fields, items);
    }
  }

  lemma SameName(fs: seq<FieldSpec>, f: FieldSpec, g: FieldSpec)
    requires Distinct(fs) && f in fs && g in fs && f.name == g.name
    ensures f == g
  {
  }

  lemma DistinctBelow(fs: seq<FieldSpec>, f: FieldSpec)
    requires Distinct(fs) && f in fs
    ensures Distinct(f.fields)
  {
  }

  /** The path of a table below the first step. */
  lemma TailPath(tags: seq<string>, fs: seq<FieldSpec>)
    requires FindTable(tags, fs).Some? && |tags| > 1
    ensures var f := FirstTag(fs, tags[0]).value;
      && FindTable(tags[1..], f.fields).Some?
      && FindTable(tags, fs).value.path[1..] == FindTable(tags[1..], f.fields).value.path
  {
  }

  /** Tables of different names live on separate paths. */
  lemma {:induction false} TablesApart(tags: seq<string>, tags': seq<string>, fs: seq<FieldSpec>)
    requires Distinct(fs) && tags != tags'
    requires FindTable(tags, fs).Some? && FindTable(tags', fs).Some?
    ensures Apart(FindTable(tags, fs).value.path, FindTable(tags', fs).value.path)
    decreases |tags|
  {
    var f, g := FirstTag(fs, tags[0]).value, FirstTag(fs, tags'[0]).value;
    var p, q := FindTable(tags, fs).value.path, FindTable(tags', fs).value.path;
    if f.name != g.name {
      HeadsApart(p, q);
    } else {
      SameName(fs, f, g);
      if |tags| > 1 {
        DistinctBelow(fs, f);
        assert tags == [tags[0]] + tags[1..] && tags' == [tags'[0]] + tags'[1..];
        TailPath(tags, fs);
        TailPath(tags', fs);
        TablesApart(tags[1..], tags'[1..], f.fields);
        TailsApart(p, q);
      }
    }
  }

  /** On an object of the declared shape, findValue reaches the table's slice
      exactly when no pointer lies on the way. */
  lemma {:induction false} ReachedIffByValue(zs: Zeros, tags: seq<string>, fs: seq<FieldSpec>, obj: Fields)
    requires FindTable(tags, fs).Some? && Shaped(zs, fs, obj)
    ensures FindValue(FindTable(tags, fs).value.path, obj).Some? <==> ByValue(tags, fs)
    decreases |tags|
  {
    var f := FirstTag(fs, tags[0]).value;
    assert ShapedValue(zs, f, obj[f.name]);
    var path := FindTable(tags, fs).value.path;
    if |tags| > 1 {
      assert ShapedStruct(zs, f, obj[f.name]);
      assert path[1..] == FindTable(tags[1..], f.fields).value.path;
      assert path[1..] != [];
      if f.ref.None? {
        ReachedIffByValue(zs, tags[1..], f.fields, obj[f.name].fields);
      }
    }
  }

  /** The rows of a table are structs, or pointers to structs, of its spec. */
  ghost predicate RowsShaped(zs: Zeros, f: FieldSpec, rows: seq<Value>) {
    forall i :: 0 <= i < |rows| ==> ShapedStruct(zs, f, rows[i])
  }

  lemma {:induction false} RowsAreShaped(zs: Zeros, tags: seq<string>, fs: seq<FieldSpec>, obj: Fields)
    requires FindTable(tags, fs).Some? && Shaped(zs, fs, obj)
    requires FindValue(FindTable(tags, fs).value.path, obj).Some?
    ensures RowsShaped(zs, FindTable(tags, fs).value.field, FindValue(FindTable(tags, fs).value.path, obj).value)
    decreases |tags|
  {
    var f := FirstTag(fs, tags[0]).value;
    assert ShapedValue(zs, f, obj[f.name]);
    var path := FindTable(tags, fs).value.path;
    if |tags| > 1 {
      assert ShapedStruct(zs, f, obj[f.name]);
      assert path[1..] == FindTable(tags[1..], f.fields).value.path;
      RowsAreShaped(zs, tags[1..], f.fields, obj[f.name].fields);
    }
  }

  /** Replacing the rows of a table keeps the object's shape. */
  lemma {:induction false} SetKeepsShape(zs: Zeros, tags: seq<string>, fs: seq<FieldSpec>, obj: Fields, rows: seq<Value>)
    requires Distinct(fs) && FindTable(tags, fs).Some? && Shaped(zs, fs, obj)
    requires FindValue(FindTable(tags, fs).value.path, obj).Some?
    requires RowsShaped(zs, FindTable(tags, fs).value.field, rows)
    ensures Shaped(zs, fs, SetValue(FindTable(tags, fs).value.path, obj, rows))
    decreases |tags|
  {
    var f := FirstTag(fs, tags[0]).value;
    assert ShapedValue(zs, f, obj[f.name]);
    var path := FindTable(tags, fs).value.path;
    var after := SetValue(path, obj, rows);
    if |tags| > 1 {
      assert ShapedStruct(zs, f, obj[f.name]);
      assert path[1..] == FindTable(tags[1..], f.fields).value.path;
      DistinctBelow(fs, f);
      SetKeepsShape(zs, tags[1..], f.fields, obj[f.name].fields, rows);
      assert ShapedStruct(zs, f, after[f.name]);
    }
    forall i | 0 <= i < |fs| ensures fs[i].name in after && ShapedValue(zs, fs[i], after[fs[i].name]) {
      if fs[i].name == f.name {
        SameName(fs, fs[i], f);
      }
    }
  }
}
