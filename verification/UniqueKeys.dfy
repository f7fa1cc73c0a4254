/** Tables with several unique fields: when the operations keep their non-empty
    values pairwise distinct, and when an Upsert does not. */
module UniqueKeys {
  import opened GoTypes
  import opened Merge
  import opened MergeLaws
  import opened Decode
  import opened Paths
  import opened Rows
  import opened KeyedMap

  /** No two rows share a non-empty value of the field. */
  ghost predicate Unshared(name: string, rows: seq<Value>) {
    forall i, j :: 0 <= i < j < |rows| && Text(rows[i], name).Some? && Text(rows[i], name) == Text(rows[j], name) ==>
      Text(rows[i], name) == Some("")
  }

  ghost predicate AllUnshared(uks: map<string, FieldSpec>, rows: seq<Value>) {
    forall t :: IsKey(uks, t) ==> Unshared(uks[t].name, rows)
  }

  /** The merge of req gets to write this unique field. */
  ghost predicate Writes(f: FieldSpec, req: Fields, g: FieldSpec) {
    exists i :: Reached(f.fields, req, i) && f.fields[i] == g
  }

  /** Row x holds a non-empty value that the request asks for and would write. */
  ghost predicate Holds(f: FieldSpec, ukv: map<string, Pb>, req: Fields, x: Value)
    requires KeysOf(f).Some?
  {
    var uks := KeysOf(f).value.uks;
    exists t :: IsKey(uks, t) && MatchesOn(uks, ukv, x, t) && StringOf(ukv[t]) != "" && Writes(f, req, uks[t])
  }

  /** No row but row i holds such a value. */
  ghost predicate NoOtherHolder(f: FieldSpec, ukv: map<string, Pb>, req: Fields, rows: seq<Value>, i: int)
    requires KeysOf(f).Some?
  {
    forall j :: 0 <= j < |rows| && j != i ==> !Holds(f, ukv, req, rows[j])
  }

  lemma WritesIff(zs: Zeros, f: FieldSpec, req: Fields, i: nat)
    requires TableOk(zs, f) && i < |f.fields|
    ensures Writes(f, req, f.fields[i]) <==> Reached(f.fields, req, i)
  {
    forall j | 0 <= j < |f.fields| && f.fields[j] == f.fields[i] ensures j == i {
      assert f.fields[j].name == f.fields[i].name;
    }
  }

  /** A unique field of a merged row, error or not: the requested value if that is
      not empty and the merge gets to write it, else the old one. */
  lemma MergedUniqueField(zs: Zeros, f: FieldSpec, d: Fields, req: Fields, ukv: map<string, Pb>, t: string)
    requires TableOk(zs, f) && Shaped(zs, f.fields, d) && Shaped(zs, f.fields, req)
    requires KeysOfRequest(KeysOf(f).value.uks, ukv, req)
    requires IsKey(KeysOf(f).value.uks, t)
    ensures var g := KeysOf(f).value.uks[t];
      var asked := if t in ukv then StringOf(ukv[t]) else "";
      && TextIn(d, g.name).Some?
      && TextIn(MergeFields(zs, f.fields, d, req, UnSpec).dst, g.name)
         == if asked != "" && Writes(f, req, g) then Some(asked) else TextIn(d, g.name)
  {
    var i := UniqueIsField(zs, f, t);
    StringFieldAfterMerge(zs, f.fields, d, req, i);
    WritesIff(zs, f, req, i);
  }

  /** Writing a row whose unique values are its old ones or such as no other row
      has keeps every unique field unshared. */
  lemma ReplaceKeepsUnshared(uks: map<string, FieldSpec>, rows: seq<Value>, i: nat, x: Value)
    requires AllUnshared(uks, rows) && i < |rows|
    requires forall t :: IsKey(uks, t) ==> Text(x, uks[t].name) == Text(rows[i], uks[t].name) || OnlyAt(uks[t].name, rows, i, x)
    ensures AllUnshared(uks, rows[i := x])
  {
  }

  ghost predicate OnlyAt(name: string, rows: seq<Value>, i: nat, x: Value) {
    forall j :: 0 <= j < |rows| && j != i ==> Text(rows[j], name) != Text(x, name)
  }

  lemma AppendKeepsUnshared(uks: map<string, FieldSpec>, rows: seq<Value>, x: Value)
    requires AllUnshared(uks, rows)
    requires forall t, j :: IsKey(uks, t) && 0 <= j < |rows| && Text(rows[j], uks[t].name) == Text(x, uks[t].name) ==>
      Text(x, uks[t].name) == None || Text(x, uks[t].name) == Some("")
    ensures AllUnshared(uks, rows + [x])
  {
  }

  lemma ZeroUnique(zs: Zeros, f: FieldSpec, t: string)
    requires TableOk(zs, f) && IsKey(KeysOf(f).value.uks, t)
    ensures Shaped(zs, f.fields, ZeroOf(zs, f.ref.value))
    ensures TextIn(ZeroOf(zs, f.ref.value), KeysOf(f).value.uks[t].name) == Some("")
  {
    PrimaryIsUnique(zs, f);
    ZeroIsShaped(zs, f.fields, ZeroOf(zs, f.ref.value));
    var g := KeysOf(f).value.uks[t];
    var i :| 0 <= i < |f.fields| && f.fields[i] == g;
    assert ZeroValue(zs, f.fields[i], ZeroOf(zs, f.ref.value)[g.name]);
  }

  /** An appended row shares nothing: had a row held one of its non-empty unique
      values, it would have been hit. */
  lemma AppendedUnshared(zs: Zeros, f: FieldSpec, ukv: map<string, Pb>, rows: seq<Value>, req: Fields)
    requires TableOk(zs, f) && KeysOfRequest(KeysOf(f).value.uks, ukv, req)
    requires AllUnshared(KeysOf(f).value.uks, rows) && Shaped(zs, f.fields, req)
    requires forall j :: 0 <= j < |rows| ==> !Hit(KeysOf(f).value.uks, ukv, rows[j])
    ensures AllUnshared(KeysOf(f).value.uks,
      rows + [VPtr(f.ref.value, MergeFields(zs, f.fields, ZeroOf(zs, f.ref.value), req, UnSpec).dst)])
  {
    var uks, zero := KeysOf(f).value.uks, ZeroOf(zs, f.ref.value);
    var x := VPtr(f.ref.value, MergeFields(zs, f.fields, zero, req, UnSpec).dst);
    forall t, j | IsKey(uks, t) && 0 <= j < |rows| && Text(rows[j], uks[t].name) == Text(x, uks[t].name)
      ensures Text(x, uks[t].name) == None || Text(x, uks[t].name) == Some("")
    {
      ZeroUnique(zs, f, t);
      MergedUniqueField(zs, f, zero, req, ukv, t);
      assert !MatchesOn(uks, ukv, rows[j], t);
    }
    AppendKeepsUnshared(uks, rows, x);
  }

  /** Whatever comes of the merge, a row no other row competes with can be
      merged into without two rows sharing a unique value. */
  lemma MergeKeepsUnshared(zs: Zeros, f: FieldSpec, ukv: map<string, Pb>, rows: seq<Value>, req: Fields, i: nat)
    requires TableOk(zs, f) && KeysOfRequest(KeysOf(f).value.uks, ukv, req)
    requires AllUnshared(KeysOf(f).value.uks, rows) && RowsShaped(zs, f, rows) && Shaped(zs, f.fields, req)
    requires i < |rows| && rows[i].VPtr? && NoOtherHolder(f, ukv, req, rows, i)
    ensures AllUnshared(KeysOf(f).value.uks,
      rows[i := Rewrap(rows[i], MergeFields(zs, f.fields, Deref(zs, rows[i]), req, UnSpec).dst)])
  {
    var uks := KeysOf(f).value.uks;
    assert ShapedStruct(zs, f, rows[i]);
    var x := Rewrap(rows[i], MergeFields(zs, f.fields, Deref(zs, rows[i]), req, UnSpec).dst);
    forall t | IsKey(uks, t)
      ensures Text(x, uks[t].name) == Text(rows[i], uks[t].name) || OnlyAt(uks[t].name, rows, i, x)
    {
      MergedUniqueField(zs, f, Deref(zs, rows[i]), req, ukv, t);
      forall j | 0 <= j < |rows| && j != i && t in ukv && StringOf(ukv[t]) != "" && Writes(f, req, uks[t])
        ensures Text(rows[j], uks[t].name) != Some(StringOf(ukv[t]))
      {
        assert !Holds(f, ukv, req, rows[j]);
        assert !MatchesOn(uks, ukv, rows[j], t);
      }
    }
    ReplaceKeepsUnshared(uks, rows, i, x);
  }

  lemma MergedShares(zs: Zeros, f: FieldSpec, ukv: map<string, Pb>, req: Fields, d: Fields, y: Value) returns (t: string)
    requires TableOk(zs, f) && KeysOfRequest(KeysOf(f).value.uks, ukv, req)
    requires Shaped(zs, f.fields, d) && Shaped(zs, f.fields, req) && Holds(f, ukv, req, y)
    ensures IsKey(KeysOf(f).value.uks, t)
    ensures var name := KeysOf(f).value.uks[t].name;
      && Text(y, name).Some? && Text(y, name) != Some("")
      && TextIn(MergeFields(zs, f.fields, d, req, UnSpec).dst, name) == Text(y, name)
  {
    var uks := KeysOf(f).value.uks;
    t :| IsKey(uks, t) && MatchesOn(uks, ukv, y, t) && StringOf(ukv[t]) != "" && Writes(f, req, uks[t]);
    MergedUniqueField(zs, f, d, req, ukv, t);
  }

  /** A merge into row i while another row holds a non-empty requested value that
      it gets to write leaves the two sharing it, even if the merge fails later. */
  lemma MergeShares(zs: Zeros, f: FieldSpec, ukv: map<string, Pb>, rows: seq<Value>, req: Fields, i: nat)
    requires TableOk(zs, f) && KeysOfRequest(KeysOf(f).value.uks, ukv, req)
    requires RowsShaped(zs, f, rows) && Shaped(zs, f.fields, req)
    requires i < |rows| && rows[i].VPtr? && !NoOtherHolder(f, ukv, req, rows, i)
    ensures !AllUnshared(KeysOf(f).value.uks,
      rows[i := Rewrap(rows[i], MergeFields(zs, f.fields, Deref(zs, rows[i]), req, UnSpec).dst)])
  {
    var uks := KeysOf(f).value.uks;
    assert ShapedStruct(zs, f, rows[i]);
    var x := Rewrap(rows[i], MergeFields(zs, f.fields, Deref(zs, rows[i]), req, UnSpec).dst);
    var j :| 0 <= j < |rows| && j != i && Holds(f, ukv, req, rows[j]);
    var t := MergedShares(zs, f, ukv, req, rows[i].target, rows[j]);
    TwoShare(uks[t].name, rows[i := x], i, j);
    assert !Unshared(uks[t].name, rows[i := x]);
  }

  lemma TwoShare(name: string, rows: seq<Value>, i: nat, j: nat)
    requires i < |rows| && j < |rows| && i != j
    requires Text(rows[i], name).Some? && Text(rows[i], name) == Text(rows[j], name) && Text(rows[i], name) != Some("")
    ensures !Unshared(name, rows)
  {
  }

  /** The request meets an existing row to merge into while another row holds a
      non-empty value it asks for, in a field that no refused value precedes. */
  ghost predicate Competes(zs: Zeros, f: FieldSpec, ids: nat -> string, q: Request, rows: seq<Value>)
    requires KeysOf(f).Some? && f.ref.Some?
  {
    Seek(zs, f, ids, q).Some? &&
    var s := Seek(zs, f, ids, q).value;
    var i := FirstHit(KeysOf(f).value.uks, s.ukv, rows);
    i < |rows| && !NoOtherHolder(f, s.ukv, s.req, rows, i)
  }

  /** Every Insert and Igsert keeps the unique fields unshared; an Upsert does so,
      whether or not its merge fails part-way, exactly if no row competes with the
      one it merges into. */
  lemma InsertKeepsUnshared(zs: Zeros, f: FieldSpec, ids: nat -> string, q: Request, mode: Mode, rows: seq<Value>)
    requires TableOk(zs, f)
    requires RowsShaped(zs, f, rows) && AllUnshared(KeysOf(f).value.uks, rows)
    ensures AllUnshared(KeysOf(f).value.uks, InsertRows(zs, f, KeysOf(f).value, ids, q, mode, rows).0.rows)
       <==> !(mode == Upsert && Competes(zs, f, ids, q, rows))
  {
    InsertIsPlace(zs, f, ids, q, mode, rows);
    if Seek(zs, f, ids, q).Some? {
      var s := Seek(zs, f, ids, q).value;
      SoughtKeys(zs, f, ids, q);
      PlaceKeepsUnshared(zs, f, s.ukv, rows, s.req, mode);
    }
  }

  lemma PlaceKeepsUnshared(zs: Zeros, f: FieldSpec, ukv: map<string, Pb>, rows: seq<Value>, req: Fields, mode: Mode)
    requires TableOk(zs, f) && KeysOfRequest(KeysOf(f).value.uks, ukv, req)
    requires RowsShaped(zs, f, rows) && AllUnshared(KeysOf(f).value.uks, rows) && Shaped(zs, f.fields, req)
    ensures var uks := KeysOf(f).value.uks;
      var i := FirstHit(uks, ukv, rows);
      AllUnshared(uks, Place(zs, f, uks, ukv, rows, req, mode).rows)
      <==> !(mode == Upsert && i < |rows| && !NoOtherHolder(f, ukv, req, rows, i))
  {
    var i := FirstHit(KeysOf(f).value.uks, ukv, rows);
    if i == |rows| {
      AppendedUnshared(zs, f, ukv, rows, req);
    } else if mode == Upsert {
      HitIsPointer(zs, f, ukv, rows, i);
      if NoOtherHolder(f, ukv, req, rows, i) {
        MergeKeepsUnshared(zs, f, ukv, rows, req, i);
      } else {
        MergeShares(zs, f, ukv, rows, req, i);
      }
    }
  }

  /** In particular an Upsert that hits one row only. */
  lemma OneHitIsEnough(f: FieldSpec, ukv: map<string, Pb>, req: Fields, rows: seq<Value>, i: nat)
    requires KeysOf(f).Some?
    requires i < |rows| && forall j :: 0 <= j < |rows| && j != i ==> !Hit(KeysOf(f).value.uks, ukv, rows[j])
    ensures NoOtherHolder(f, ukv, req, rows, i)
  {
  }

  lemma DeleteKeepsUnshared(uks: map<string, FieldSpec>, pk: FieldSpec, conds: seq<Condition>, rows: seq<Value>)
    requires AllUnshared(uks, rows)
    ensures AllUnshared(uks, DeleteRows(pk, conds, rows).rows)
  {
  }
}
