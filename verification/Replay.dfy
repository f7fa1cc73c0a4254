/** Sending the same request object again after an Igsert or Upsert succeeded:
    the keys it lacked were generated and written back into it, so it finds the
    row it made or met before and changes nothing. */
module Replay {
  import opened GoTypes
  import opened Merge
  import opened MergeLaws
  import opened Decode
  import opened Paths
  import opened Rows
  import opened KeyedMap

  /** The value the loop leaves in the request at position i. */
  function Patched(uks: map<string, FieldSpec>, ids: nat -> string, q: Request, i: nat): Pb
    requires i < |q.tags| == |q.values|
  {
    if q.tags[i] in uks && q.values[i] == Kindless then PString(ids(i)) else q.values[i]
  }

  lemma {:induction false} ScanPatches(uks: map<string, FieldSpec>, ids: nat -> string, q: Request, n: nat)
    requires n <= |q.tags| == |q.values| && ScanRequest(uks, ids, q, n).ok
    ensures forall i :: 0 <= i < n ==> ScanRequest(uks, ids, q, n).values[i] == Patched(uks, ids, q, i)
    ensures forall i :: n <= i < |q.values| ==> ScanRequest(uks, ids, q, n).values[i] == q.values[i]
    decreases n
  {
    if n > 0 {
      ScanPatches(uks, ids, q, n - 1);
    }
  }

  /** The request may ask for this unique field: it is a string, and its value is
      there or can be generated. */
  ghost predicate Askable(uks: map<string, FieldSpec>, tag: string, value: Pb) {
    tag in uks ==> uks[tag].typ == TString && (value != Kindless || Generated(uks[tag]))
  }

  /** The field is declared with rand_hex or object_id. */
  ghost predicate Generated(f: FieldSpec) {
    (exists n :: RandHex(n) in f.attrs) || (exists n :: ObjectId(n) in f.attrs)
  }

  lemma GeneratedIff(f: FieldSpec)
    ensures HasGenerator(f) <==> Generated(f)
  {
    if a :| a in f.attrs && (a.RandHex? || a.ObjectId?) {
      assert a == RandHex(a.length) || a == ObjectId(a.length);
    }
  }

  lemma {:induction false} ScanOkIff(uks: map<string, FieldSpec>, ids: nat -> string, q: Request, n: nat)
    requires n <= |q.tags| == |q.values|
    ensures ScanRequest(uks, ids, q, n).ok <==> forall i :: 0 <= i < n ==> Askable(uks, q.tags[i], q.values[i])
    ensures ScanRequest(uks, ids, q, n).ok ==>
      forall t :: t in ScanRequest(uks, ids, q, n).data <==> t in q.tags[..n]
    decreases n
  {
    if n > 0 {
      ScanOkIff(uks, ids, q, n - 1);
      if q.tags[n - 1] in uks {
        GeneratedIff(uks[q.tags[n - 1]]);
      }
      if ScanRequest(uks, ids, q, n - 1).ok {
        ScanPatches(uks, ids, q, n - 1);
        assert q.tags[..n] == q.tags[..n - 1] + [q.tags[n - 1]];
      }
    }
  }

  /** A request passes exactly when each unique field in it is usable and the
      primary key is in it or can be generated; it then holds the values given,
      generated keys standing where there was none, and after them a generated
      primary key if it had none. */
  lemma PrepareMeans(zs: Zeros, f: FieldSpec, ids: nat -> string, q: Request)
    requires TableOk(zs, f) && |q.tags| == |q.values|
    ensures var k := KeysOf(f).value; var p := Prepare(k, ids, q);
      && (p.ok <==>
            && (forall i :: 0 <= i < |q.tags| ==> Askable(k.uks, q.tags[i], q.values[i]))
            && (k.pk.tagName in q.tags || Generated(k.pk)))
      && (p.ok ==>
            && |p.q.tags| == |p.q.values|
            && p.q.tags == (if k.pk.tagName in q.tags then q.tags else q.tags + [k.pk.tagName])
            && (forall i :: 0 <= i < |q.tags| ==> p.q.values[i] == Patched(k.uks, ids, q, i))
            && (k.pk.tagName !in q.tags ==> p.q.values[|q.tags|] == PString(ids(|q.tags|))))
  {
    var k := KeysOf(f).value;
    PrimaryIsUnique(zs, f);
    GeneratedIff(k.pk);
    ScanOkIff(k.uks, ids, q, |q.tags|);
    ScanKeys(k.uks, ids, q, |q.tags|);
    assert q.tags[..|q.tags|] == q.tags;
    if ScanRequest(k.uks, ids, q, |q.tags|).ok {
      ScanPatches(k.uks, ids, q, |q.tags|);
    }
  }

  /** The last value given for a tag is the one to decode, and its patched form
      the one to look for. */
  lemma {:induction false} ScanLast(uks: map<string, FieldSpec>, ids: nat -> string, q: Request, n: nat, i: nat)
    requires i < n <= |q.tags| == |q.values| && ScanRequest(uks, ids, q, n).ok
    requires forall j :: i < j < n ==> q.tags[j] != q.tags[i]
    ensures var s := ScanRequest(uks, ids, q, n);
      && q.tags[i] in s.data && s.data[q.tags[i]] == q.values[i]
      && (q.tags[i] in uks ==> q.tags[i] in s.ukv && s.ukv[q.tags[i]] == Patched(uks, ids, q, i))
    decreases n
  {
    ScanPatches(uks, ids, q, n - 1);
    if i < n - 1 {
      ScanLast(uks, ids, q, n - 1, i);
    }
  }

  predicate IsLast(tags: seq<string>, i: int) {
    0 <= i < |tags| && forall j :: i < j < |tags| ==> tags[j] != tags[i]
  }

  lemma {:induction false} LastOf(tags: seq<string>, t: string) returns (i: nat)
    requires t in tags
    ensures IsLast(tags, i) && tags[i] == t
    decreases |tags|
  {
    var n := |tags| - 1;
    if tags[n] == t {
      i := n;
    } else {
      i := LastOf(tags[..n], t);
    }
  }

  lemma LastInFront(tags: seq<string>, tag: string, i: nat)
    requires i < |tags| && tag !in tags
    ensures IsLast(tags + [tag], i) <==> IsLast(tags, i)
  {
    assert forall j :: 0 <= j < |tags| ==> (tags + [tag])[j] == tags[j];
  }

  /** The appended key hides no other. */
  lemma SameLast(zs: Zeros, f: FieldSpec, ids: nat -> string, q: Request, i: nat)
    requires TableOk(zs, f) && |q.tags| == |q.values| && Prepare(KeysOf(f).value, ids, q).ok && i < |q.tags|
    ensures IsLast(Prepare(KeysOf(f).value, ids, q).q.tags, i) <==> IsLast(q.tags, i)
  {
    PrepareMeans(zs, f, ids, q);
    if KeysOf(f).value.pk.tagName !in q.tags {
      LastInFront(q.tags, KeysOf(f).value.pk.tagName, i);
    }
  }

  /** The same after both loops, and nothing else is decoded. */
  lemma PreparedLast(zs: Zeros, f: FieldSpec, ids: nat -> string, q: Request, i: nat)
    requires TableOk(zs, f) && |q.tags| == |q.values| && Prepare(KeysOf(f).value, ids, q).ok
    requires IsLast(Prepare(KeysOf(f).value, ids, q).q.tags, i)
    ensures var k := KeysOf(f).value; var p := Prepare(k, ids, q); var t := p.q.tags[i];
      && |p.q.values| == |p.q.tags|
      && t in p.data && p.data[t] == (if i < |q.tags| then q.values[i] else p.q.values[i])
      && (t in k.uks ==> t in p.ukv && p.ukv[t] == p.q.values[i])
  {
    var k := KeysOf(f).value;
    PrepareMeans(zs, f, ids, q);
    PrimaryInKeys(zs, f);
    if i < |q.tags| {
      SameLast(zs, f, ids, q, i);
      ScanLast(k.uks, ids, q, |q.tags|, i);
    }
  }

  lemma PreparedTags(zs: Zeros, f: FieldSpec, ids: nat -> string, q: Request)
    requires TableOk(zs, f) && |q.tags| == |q.values| && Prepare(KeysOf(f).value, ids, q).ok
    ensures var p := Prepare(KeysOf(f).value, ids, q); forall t :: t in p.data <==> t in p.q.tags
  {
    ScanOkIff(KeysOf(f).value.uks, ids, q, |q.tags|);
    assert q.tags[..|q.tags|] == q.tags;
  }

  ghost predicate AllKinds(data: map<string, Pb>) {
    forall t :: t in data ==> !HasKindless(data[t])
  }

  /** The last value given for some tag lacks a kind, or something in it does. */
  ghost predicate LacksKind(q: Request)
    requires |q.tags| == |q.values|
  {
    exists i :: IsLast(q.tags, i) && HasKindless(q.values[i])
  }

  lemma LastIsDecoded(zs: Zeros, f: FieldSpec, ids: nat -> string, q: Request, i: nat)
    requires TableOk(zs, f) && |q.tags| == |q.values| && Prepare(KeysOf(f).value, ids, q).ok && IsLast(q.tags, i)
    ensures var p := Prepare(KeysOf(f).value, ids, q); q.tags[i] in p.data && p.data[q.tags[i]] == q.values[i]
  {
    PrepareMeans(zs, f, ids, q);
    SameLast(zs, f, ids, q, i);
    PreparedLast(zs, f, ids, q, i);
  }

  lemma DecodedIsLast(zs: Zeros, f: FieldSpec, ids: nat -> string, q: Request, t: string)
    requires TableOk(zs, f) && |q.tags| == |q.values| && Prepare(KeysOf(f).value, ids, q).ok
    requires t in Prepare(KeysOf(f).value, ids, q).data && HasKindless(Prepare(KeysOf(f).value, ids, q).data[t])
    ensures LacksKind(q)
  {
    PrepareMeans(zs, f, ids, q);
    PreparedTags(zs, f, ids, q);
    var i := LastOf(Prepare(KeysOf(f).value, ids, q).q.tags, t);
    PreparedLast(zs, f, ids, q, i);
    SameLast(zs, f, ids, q, i);
  }

  /** The data cannot be encoded exactly if a last value lacks a kind, no matter
      what was generated in its place. */
  lemma EncodableIff(zs: Zeros, f: FieldSpec, ids: nat -> string, q: Request)
    requires TableOk(zs, f) && |q.tags| == |q.values| && Prepare(KeysOf(f).value, ids, q).ok
    ensures AllKinds(Prepare(KeysOf(f).value, ids, q).data) <==> !LacksKind(q)
  {
    if LacksKind(q) {
      var i :| IsLast(q.tags, i) && HasKindless(q.values[i]);
      LastIsDecoded(zs, f, ids, q, i);
    } else if !AllKinds(Prepare(KeysOf(f).value, ids, q).data) {
      var t :| t in Prepare(KeysOf(f).value, ids, q).data && HasKindless(Prepare(KeysOf(f).value, ids, q).data[t]);
      DecodedIsLast(zs, f, ids, q, t);
    }
  }

  /** Such a call is refused and changes no row, also when a key was generated. */
  lemma LacksKindIsRefused(zs: Zeros, f: FieldSpec, ids: nat -> string, q: Request, mode: Mode, rows: seq<Value>)
    requires TableOk(zs, f) && |q.tags| == |q.values| && LacksKind(q)
    ensures InsertRows(zs, f, KeysOf(f).value, ids, q, mode, rows).0 == RowsOut(rows, Refused, false)
  {
    if Prepare(KeysOf(f).value, ids, q).ok {
      EncodableIff(zs, f, ids, q);
    }
  }

  lemma ReprepareAt(zs: Zeros, f: FieldSpec, ids: nat -> string, ids': nat -> string, q: Request, t: string)
    requires TableOk(zs, f) && |q.tags| == |q.values| && Prepare(KeysOf(f).value, ids, q).ok
    requires t in Prepare(KeysOf(f).value, ids, q).q.tags
    ensures var k := KeysOf(f).value; var p := Prepare(k, ids, q);
      && |p.q.tags| == |p.q.values| && t in p.data
      && var again := Prepare(k, ids', p.q);
      && t in again.data && again.data[t] == (if t in k.uks && t in p.ukv then p.ukv[t] else p.data[t])
      && (t in k.uks ==> t in p.ukv && t in again.ukv && again.ukv[t] == p.ukv[t])
  {
    var p := Prepare(KeysOf(f).value, ids, q);
    RereadRequest(zs, f, ids, ids', q);
    var i := LastOf(p.q.tags, t);
    PreparedLast(zs, f, ids, q, i);
    PreparedLast(zs, f, ids', p.q, i);
    PrepareMeans(zs, f, ids, q);
  }

  /** Reading again the request as the first reading left it: nothing is patched,
      the keys are the same, and every unique value is decoded as it is looked for. */
  lemma Reprepare(zs: Zeros, f: FieldSpec, ids: nat -> string, ids': nat -> string, q: Request)
    requires TableOk(zs, f) && |q.tags| == |q.values| && Prepare(KeysOf(f).value, ids, q).ok
    ensures var k := KeysOf(f).value; var p := Prepare(k, ids, q);
      && |p.q.tags| == |p.q.values| >= |q.tags|
      && var again := Prepare(k, ids', p.q);
      && again.ok && again.q == p.q && again.ukv == p.ukv
      && again.data.Keys == p.data.Keys
      && (forall t :: t in again.data ==> again.data[t] == if t in p.ukv then p.ukv[t] else p.data[t])
  {
    var k := KeysOf(f).value;
    var p := Prepare(k, ids, q);
    RereadRequest(zs, f, ids, ids', q);
    SameTags(zs, f, ids, ids', q);
    forall t | t in p.q.tags
      ensures t in p.data && Prepare(k, ids', p.q).data[t] == if t in p.ukv then p.ukv[t] else p.data[t]
      ensures t in k.uks ==> t in p.ukv && Prepare(k, ids', p.q).ukv[t] == p.ukv[t]
    {
      ReprepareAt(zs, f, ids, ids', q, t);
    }
    assert Prepare(k, ids', p.q).ukv == p.ukv;
  }

  lemma SameTags(zs: Zeros, f: FieldSpec, ids: nat -> string, ids': nat -> string, q: Request)
    requires TableOk(zs, f) && |q.tags| == |q.values| && Prepare(KeysOf(f).value, ids, q).ok
    ensures var k := KeysOf(f).value; var p := Prepare(k, ids, q);
      && |p.q.tags| == |p.q.values|
      && var again := Prepare(k, ids', p.q);
      && (forall t :: t in p.data <==> t in p.q.tags) && (forall t :: t in again.data <==> t in p.q.tags)
      && (forall t :: t in p.ukv <==> t in k.uks && t in p.q.tags)
      && (forall t :: t in again.ukv <==> t in k.uks && t in p.q.tags)
  {
    RereadRequest(zs, f, ids, ids', q);
    PreparedTags(zs, f, ids, q);
    PreparedTags(zs, f, ids', Prepare(KeysOf(f).value, ids, q).q);
    PreparedKeys(zs, f, ids, q);
    PreparedKeys(zs, f, ids', Prepare(KeysOf(f).value, ids, q).q);
  }

  lemma RereadRequest(zs: Zeros, f: FieldSpec, ids: nat -> string, ids': nat -> string, q: Request)
    requires TableOk(zs, f) && |q.tags| == |q.values| && Prepare(KeysOf(f).value, ids, q).ok
    ensures var k := KeysOf(f).value; var p := Prepare(k, ids, q);
      && |p.q.tags| == |p.q.values| >= |q.tags|
      && Prepare(k, ids', p.q).ok && Prepare(k, ids', p.q).q == p.q
  {
    var k := KeysOf(f).value;
    var p := Prepare(k, ids, q);
    PrepareMeans(zs, f, ids, q);
    PrimaryInKeys(zs, f);
    forall i | 0 <= i < |p.q.tags|
      ensures Askable(k.uks, p.q.tags[i], p.q.values[i]) && Patched(k.uks, ids', p.q, i) == p.q.values[i]
    {
      assert i < |q.tags| ==> Askable(k.uks, q.tags[i], q.values[i]) && p.q.values[i] == Patched(k.uks, ids, q, i);
    }
    PrepareMeans(zs, f, ids', p.q);
    assert Prepare(k, ids', p.q).q.values == p.q.values;
  }

  /** So a request that was refused for a unique value without a kind gets past
      that when it is sent again, exactly if no other last value lacks a kind. */
  lemma RetryEncodableIff(zs: Zeros, f: FieldSpec, ids: nat -> string, ids': nat -> string, q: Request)
    requires TableOk(zs, f) && |q.tags| == |q.values| && Prepare(KeysOf(f).value, ids, q).ok
    ensures var k := KeysOf(f).value; var p := Prepare(k, ids, q);
      && |p.q.tags| == |p.q.values|
      && (AllKinds(Prepare(k, ids', p.q).data) <==>
            forall i :: IsLast(q.tags, i) && HasKindless(q.values[i]) ==> q.tags[i] in k.uks && q.values[i] == Kindless)
  {
    var k := KeysOf(f).value;
    var p := Prepare(k, ids, q);
    PrepareMeans(zs, f, ids, q);
    RereadRequest(zs, f, ids, ids', q);
    EncodableIff(zs, f, ids', p.q);
    forall i | 0 <= i < |q.tags|
      ensures IsLast(p.q.tags, i) <==> IsLast(q.tags, i)
      ensures HasKindless(p.q.values[i]) <==> HasKindless(q.values[i]) && !(q.tags[i] in k.uks && q.values[i] == Kindless)
    {
      SameLast(zs, f, ids, q, i);
      assert p.q.values[i] == Patched(k.uks, ids, q, i);
    }
  }

  /** With a kind everywhere the second data are the first. */
  lemma SamePrepared(zs: Zeros, f: FieldSpec, ids: nat -> string, ids': nat -> string, q: Request)
    requires TableOk(zs, f) && |q.tags| == |q.values|
    requires Prepare(KeysOf(f).value, ids, q).ok && AllKinds(Prepare(KeysOf(f).value, ids, q).data)
    ensures var p := Prepare(KeysOf(f).value, ids, q);
      |p.q.tags| == |p.q.values| >= |q.tags| && Prepare(KeysOf(f).value, ids', p.q) == p
  {
    var p := Prepare(KeysOf(f).value, ids, q);
    Reprepare(zs, f, ids, ids', q);
    PreparedKeys(zs, f, ids, q);
    var again := Prepare(KeysOf(f).value, ids', p.q);
    forall t | t in p.data ensures again.data[t] == p.data[t] {
      assert !HasKindless(p.data[t]);
    }
    assert again.data == p.data;
  }

  // ------------------------------------------------------------------ the rows

  /** The first row hit stays the first row hit when that row is replaced by one
      that is hit too. */
  lemma {:induction false} FirstHitAfterReplace(uks: map<string, FieldSpec>, ukv: map<string, Pb>, rows: seq<Value>, x: Value)
    requires FirstHit(uks, ukv, rows) < |rows| && Hit(uks, ukv, x)
    ensures FirstHit(uks, ukv, rows[FirstHit(uks, ukv, rows) := x]) == FirstHit(uks, ukv, rows)
  {
    var i := FirstHit(uks, ukv, rows);
    var rows' := rows[i := x];
    assert rows'[i] == x && forall j :: 0 <= j < i ==> rows'[j] == rows[j];
  }

  lemma {:induction false} FirstHitAfterAppend(uks: map<string, FieldSpec>, ukv: map<string, Pb>, rows: seq<Value>, x: Value)
    requires FirstHit(uks, ukv, rows) == |rows| && Hit(uks, ukv, x)
    ensures FirstHit(uks, ukv, rows + [x]) == |rows|
  {
    var rows' := rows + [x];
    assert rows'[|rows|] == x && forall j :: 0 <= j < |rows| ==> rows'[j] == rows[j];
  }

  /** The key map holds the unique tags of the data, with the data's values
      where those have a kind. */
  ghost predicate Coherent(uks: map<string, FieldSpec>, p: Prepared) {
    && (forall t :: t in p.ukv <==> t in uks && t in p.data)
    && (forall t :: t in p.ukv ==> p.data[t] == p.ukv[t] || p.data[t] == Kindless)
  }

  /** A requested value that row d has is still there after the merge. */
  lemma MatchStays(zs: Zeros, f: FieldSpec, p: Prepared, d: Fields, req: Fields, t: string)
    requires TableOk(zs, f) && Shaped(zs, f.fields, d) && Shaped(zs, f.fields, req)
    requires DecodeRequest(zs, f, p.data) == Some(req) && Coherent(KeysOf(f).value.uks, p)
    requires t in p.ukv && TextIn(d, KeysOf(f).value.uks[t].name) == Some(StringOf(p.ukv[t]))
    requires MergeFields(zs, f.fields, d, req, UnSpec).err == NoErr
    ensures TextIn(MergeFields(zs, f.fields, d, req, UnSpec).dst, KeysOf(f).value.uks[t].name)
         == Some(StringOf(p.ukv[t]))
  {
    PrimaryIsUnique(zs, f);
    var g := KeysOf(f).value.uks[t];
    var i :| 0 <= i < |f.fields| && f.fields[i] == g;
    assert ShapedValue(zs, f.fields[i], d[g.name]);
    StringTypeOf(zs, f.fields[i], d[g.name]);
    DecodedKeys(zs, f, p, t);
    StringFieldAfterMerge(zs, f.fields, d, req, i);
  }

  /** A row hit on some field is still hit on it after the merge. */
  lemma StillHit(zs: Zeros, f: FieldSpec, p: Prepared, x: Value, req: Fields)
    requires TableOk(zs, f) && ShapedStruct(zs, f, x) && x.VPtr? && Shaped(zs, f.fields, req)
    requires DecodeRequest(zs, f, p.data) == Some(req)
    requires Coherent(KeysOf(f).value.uks, p)
    requires Hit(KeysOf(f).value.uks, p.ukv, x)
    requires MergeFields(zs, f.fields, x.target, req, UnSpec).err == NoErr
    ensures Hit(KeysOf(f).value.uks, p.ukv, VPtr(x.rt, MergeFields(zs, f.fields, x.target, req, UnSpec).dst))
  {
    var uks := KeysOf(f).value.uks;
    var t :| t in uks && MatchesOn(uks, p.ukv, x, t);
    MatchStays(zs, f, p, x.target, req, t);
    assert MatchesOn(uks, p.ukv, VPtr(x.rt, MergeFields(zs, f.fields, x.target, req, UnSpec).dst), t);
  }

  lemma StringTypeOf(zs: Zeros, f: FieldSpec, x: Value)
    requires ShapedValue(zs, f, x) && x.VStr?
    ensures f.typ == TString
  {
  }

  /** The appended row is hit on its primary key. */
  lemma AppendedHit(zs: Zeros, f: FieldSpec, p: Prepared, req: Fields)
    requires TableOk(zs, f) && Shaped(zs, f.fields, req) && DecodeRequest(zs, f, p.data) == Some(req)
    requires Coherent(KeysOf(f).value.uks, p)
    requires KeysOf(f).value.pk.tagName in p.ukv
    requires MergeFields(zs, f.fields, ZeroOf(zs, f.ref.value), req, UnSpec).err == NoErr
    ensures var r := MergeFields(zs, f.fields, ZeroOf(zs, f.ref.value), req, UnSpec);
      Hit(KeysOf(f).value.uks, p.ukv, VPtr(f.ref.value, r.dst))
  {
    var r := MergeFields(zs, f.fields, ZeroOf(zs, f.ref.value), req, UnSpec);
    AppendedKey(zs, f, p, req);
    assert MatchesOn(KeysOf(f).value.uks, p.ukv, VPtr(f.ref.value, r.dst), KeysOf(f).value.pk.tagName);
  }

  lemma AppendedKey(zs: Zeros, f: FieldSpec, p: Prepared, req: Fields)
    requires TableOk(zs, f) && Shaped(zs, f.fields, req) && DecodeRequest(zs, f, p.data) == Some(req)
    requires Coherent(KeysOf(f).value.uks, p)
    requires KeysOf(f).value.pk.tagName in p.ukv
    requires MergeFields(zs, f.fields, ZeroOf(zs, f.ref.value), req, UnSpec).err == NoErr
    ensures var k := KeysOf(f).value;
      && k.pk.tagName in k.uks && k.uks[k.pk.tagName] == k.pk
      && TextIn(MergeFields(zs, f.fields, ZeroOf(zs, f.ref.value), req, UnSpec).dst, k.pk.name)
         == Some(StringOf(p.ukv[k.pk.tagName]))
  {
    var k := KeysOf(f).value;
    assert k.pk.tagName in k.uks && k.uks[k.pk.tagName] == k.pk by {
      PrimaryIsUnique(zs, f);
    }
    DecodedKeys(zs, f, p, k.pk.tagName);
    ZeroKey(zs, f);
    MergedKey(zs, f, ZeroOf(zs, f.ref.value), req, StringOf(p.ukv[k.pk.tagName]));
  }

  /** A row that is hit and already holds what is merged stays as it is. */
  lemma PlaceSame(zs: Zeros, f: FieldSpec, ukv: map<string, Pb>, rows: seq<Value>, req: Fields, mode: Mode)
    requires KeysOf(f).Some? && f.ref.Some? && mode != Raw
    requires FirstHit(KeysOf(f).value.uks, ukv, rows) < |rows|
    requires var x := rows[FirstHit(KeysOf(f).value.uks, ukv, rows)];
      x.VPtr? && MergeFields(zs, f.fields, x.target, req, UnSpec).dst == x.target
      && MergeFields(zs, f.fields, x.target, req, UnSpec).err == NoErr
    ensures Place(zs, f, KeysOf(f).value.uks, ukv, rows, req, mode) == RowsOut(rows, Done, mode == Upsert)
  {
    var i := FirstHit(KeysOf(f).value.uks, ukv, rows);
    assert rows[i := rows[i]] == rows;
  }

  /** Merging again into the row that was merged into. */
  lemma UpsertAgain(zs: Zeros, f: FieldSpec, p: Prepared, rows: seq<Value>, req: Fields)
    requires TableOk(zs, f) && RowsShaped(zs, f, rows)
    requires Shaped(zs, f.fields, req) && DecodeRequest(zs, f, p.data) == Some(req)
    requires Coherent(KeysOf(f).value.uks, p) && FirstHit(KeysOf(f).value.uks, p.ukv, rows) < |rows|
    requires Place(zs, f, KeysOf(f).value.uks, p.ukv, rows, req, Upsert).res == Done
    ensures var rows' := Place(zs, f, KeysOf(f).value.uks, p.ukv, rows, req, Upsert).rows;
      Place(zs, f, KeysOf(f).value.uks, p.ukv, rows', req, Upsert) == RowsOut(rows', Done, true)
  {
    var uks := KeysOf(f).value.uks;
    var i := FirstHit(uks, p.ukv, rows);
    HitIsPointer(zs, f, p.ukv, rows, i);
    var x := rows[i];
    assert ShapedStruct(zs, f, x);
    StillHit(zs, f, p, x, req);
    var x' := Rewrap(x, MergeFields(zs, f.fields, x.target, req, UnSpec).dst);
    FirstHitAfterReplace(uks, p.ukv, rows, x');
    Idempotent(zs, f.fields, x.target, req, UnSpec);
    PlaceSame(zs, f, p.ukv, rows[i := x'], req, Upsert);
  }

  /** Finding again the row that was appended. */
  lemma AppendAgain(zs: Zeros, f: FieldSpec, p: Prepared, rows: seq<Value>, req: Fields, mode: Mode)
    requires TableOk(zs, f) && mode != Raw
    requires Shaped(zs, f.fields, req) && DecodeRequest(zs, f, p.data) == Some(req)
    requires Coherent(KeysOf(f).value.uks, p) && FirstHit(KeysOf(f).value.uks, p.ukv, rows) == |rows|
    requires KeysOf(f).value.pk.tagName in p.ukv
    requires MergeFields(zs, f.fields, ZeroOf(zs, f.ref.value), req, UnSpec).err == NoErr
    ensures var r := MergeFields(zs, f.fields, ZeroOf(zs, f.ref.value), req, UnSpec);
      var rows' := rows + [VPtr(f.ref.value, r.dst)];
      Place(zs, f, KeysOf(f).value.uks, p.ukv, rows', req, mode) == RowsOut(rows', Done, mode == Upsert)
  {
    ZeroKey(zs, f);
    AppendedHit(zs, f, p, req);
    var zero := ZeroOf(zs, f.ref.value);
    var x' := VPtr(f.ref.value, MergeFields(zs, f.fields, zero, req, UnSpec).dst);
    FirstHitAfterAppend(KeysOf(f).value.uks, p.ukv, rows, x');
    Idempotent(zs, f.fields, zero, req, UnSpec);
    PlaceSame(zs, f, p.ukv, rows + [x'], req, mode);
  }

  /** Placing the same row again changes nothing. */
  lemma PlaceAgain(zs: Zeros, f: FieldSpec, p: Prepared, rows: seq<Value>, req: Fields, mode: Mode)
    requires TableOk(zs, f) && RowsShaped(zs, f, rows) && mode != Raw
    requires Shaped(zs, f.fields, req) && DecodeRequest(zs, f, p.data) == Some(req)
    requires Coherent(KeysOf(f).value.uks, p)
    requires KeysOf(f).value.pk.tagName in p.ukv
    requires Place(zs, f, KeysOf(f).value.uks, p.ukv, rows, req, mode).res == Done
    ensures var rows' := Place(zs, f, KeysOf(f).value.uks, p.ukv, rows, req, mode).rows;
      var again := Place(zs, f, KeysOf(f).value.uks, p.ukv, rows', req, mode);
      again.rows == rows' && again.res == Done
  {
    if FirstHit(KeysOf(f).value.uks, p.ukv, rows) == |rows| {
      AppendAgain(zs, f, p, rows, req, mode);
    } else if mode == Upsert {
      UpsertAgain(zs, f, p, rows, req);
    }
  }

  /** After a successful Igsert or Upsert, the same request object, whatever
      further ids the generator would give, succeeds again, leaves every row as
      it is and is itself left as it is. */
  lemma ReplayChangesNothing(zs: Zeros, f: FieldSpec, ids: nat -> string, ids': nat -> string, q: Request,
      mode: Mode, rows: seq<Value>)
    requires TableOk(zs, f) && RowsShaped(zs, f, rows) && mode != Raw
    requires InsertRows(zs, f, KeysOf(f).value, ids, q, mode, rows).0.res == Done
    ensures var k := KeysOf(f).value;
      var (out, q') := InsertRows(zs, f, k, ids, q, mode, rows);
      var (again, q'') := InsertRows(zs, f, k, ids', q', mode, out.rows);
      again.rows == out.rows && again.res == Done && q'' == q'
  {
    var k := KeysOf(f).value;
    var p := Prepare(k, ids, q);
    PreparedKeys(zs, f, ids, q);
    RequestIsShaped(zs, f, p.data);
    SamePrepared(zs, f, ids, ids', q);
    PlaceAgain(zs, f, p, rows, DecodeRequest(zs, f, p.data).value, mode);
  }
}
