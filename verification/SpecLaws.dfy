/** What holds of every derived spec: it meets the assumptions of the merge
    laws, values of the Go type have its shape, and no kind unfolds twice on a
    path. */
module SpecLaws {
  import opened GoTypes
  import opened MergeLaws
  import opened SpecParse

  /** zs is the zero struct of every named type of env, field by field. */
  ghost predicate ZerosOf(env: TypeEnv, zs: Zeros) {
    zs.Keys == env.Keys && forall k :: k in env ==> zs[k] == ZeroDecls(zs, env[k])
  }

  function DeclsOf(env: TypeEnv, ty: GoType): seq<FieldDecl> {
    match ty
    case GNamed(kind) => if kind in env then env[kind] else []
    case GAnon(decls) => decls
    case _ => []
  }

  /** v is a value of Go type ty. */
  ghost predicate HasType(env: TypeEnv, ty: GoType, v: Value)
    decreases v
  {
    match ty
    case GBool => v.VBool?
    case GInt => v.VInt?
    case GUint => v.VUint?
    case GByte => v.VUint?
    case GString => v.VStr?
    case GNamed(_) => v.VStruct? && forall i :: 0 <= i < |DeclsOf(env, ty)| ==>
      DeclsOf(env, ty)[i].name in v.fields
      && HasType(env, DeclsOf(env, ty)[i].ty, v.fields[DeclsOf(env, ty)[i].name])
    case GAnon(ds) => v.VStruct? && forall i :: 0 <= i < |ds| ==>
      ds[i].name in v.fields && HasType(env, ds[i].ty, v.fields[ds[i].name])
    case GPtr(elem) =>
      if !IsStruct(elem) then v.VOther?
      else if v == VNil(elem) then true
      else v.VPtr? && v.rt == elem && forall i :: 0 <= i < |DeclsOf(env, elem)| ==>
        DeclsOf(env, elem)[i].name in v.target
        && HasType(env, DeclsOf(env, elem)[i].ty, v.target[DeclsOf(env, elem)[i].name])
    case GSlice(elem) => v.VSlice? && forall i :: 0 <= i < |v.items| ==> HasType(env, elem, v.items[i])
    case GMap(key, val) =>
      match KeyType(key) {
        case Some(KString) => v.VMap? && forall k :: k in v.entries ==> HasType(env, val, v.entries[k])
        case Some(_) => v.VNumMap? && forall k :: k in v.numEntries ==> HasType(env, val, v.numEntries[k])
        case None => v.VOther?
      }
    case GOther => v.VOther?
  }

  /** v holds a value of the declared type in every field of struct type ty. */
  ghost predicate StructHasType(env: TypeEnv, ty: GoType, v: Fields) {
    DeclsHaveTypes(env, DeclsOf(env, ty), v)
  }

  ghost predicate DeclsHaveTypes(env: TypeEnv, decls: seq<FieldDecl>, v: Fields) {
    forall i :: 0 <= i < |decls| ==> decls[i].name in v && HasType(env, decls[i].ty, v[decls[i].name])
  }

  // ------------------------------------------------ derived specs are in order

  /** Every derived spec has distinct names, limits in order and fitting zero
      structs at every level, and its own zero struct is the type's. */
  lemma {:induction false} ExpandIsOk(env: TypeEnv, zs: Zeros, ty: GoType, depth: nat, above: set<string>)
    requires ZerosOf(env, zs) && IsStruct(ty)
    ensures SpecOk(zs, Expand(env, ty, depth, above))
    ensures ZeroFields(zs, Expand(env, ty, depth, above), ZeroOf(zs, ty))
    decreases |env.Keys - above|, ty, 1
  {
    match ty
    case GNamed(kind) =>
      if kind !in above && kind in env {
        NamedIsOk(env, zs, kind, depth, above);
      }
    case GAnon(decls) =>
      DeclsAreOk(env, zs, decls, depth, above, []);
  }

  lemma {:induction false} NamedIsOk(env: TypeEnv, zs: Zeros, kind: string, depth: nat, above: set<string>)
    requires ZerosOf(env, zs) && kind in env && kind !in above
    ensures SpecOk(zs, Expand(env, GNamed(kind), depth, above))
    ensures ZeroFields(zs, Expand(env, GNamed(kind), depth, above), ZeroOf(zs, GNamed(kind)))
    decreases |env.Keys - above|, GNamed(kind), 0
  {
    OneKindFewer(env.Keys, above, kind);
    var fs := ExpandDecls(env, env[kind], depth, above + {kind}, []);
    assert Expand(env, GNamed(kind), depth, above) == fs;
    assert ZeroOf(zs, GNamed(kind)) == ZeroDecls(zs, env[kind]);
    DeclsAreOk(env, zs, env[kind], depth, above + {kind}, []);
  }

  lemma {:induction false} DeclsAreOk(env: TypeEnv, zs: Zeros, decls: seq<FieldDecl>, depth: nat,
      above: set<string>, names: seq<string>)
    requires ZerosOf(env, zs)
    ensures var fs := ExpandDecls(env, decls, depth, above, names);
      && SpecOk(zs, fs)
      && ZeroFields(zs, fs, ZeroDecls(zs, decls))
      && (forall i :: 0 <= i < |fs| ==> fs[i].name !in names && Exported(fs[i].name))
    decreases |env.Keys - above|, decls, 0
  {
    if decls != [] {
      var d, rest := decls[0], decls[1..];
      if !Exported(d.name) || d.name in names {
        DeclsAreOk(env, zs, rest, depth, above, names);
      } else {
        DeclsAreOk(env, zs, rest, depth, above, names + [d.name]);
        FieldIsOk(env, zs, d, depth, above);
        var more := ExpandDecls(env, rest, depth, above, names + [d.name]);
        forall i | 0 <= i < |more| ensures more[i].name != d.name && more[i].name !in names {
          assert more[i].name !in names + [d.name];
        }
        match FieldOf(env, d, depth, above)
        case Some(f) => ConsIsOk(zs, f, more, ZeroDecls(zs, rest), ZeroOfType(zs, d.ty));
        case None =>
      }
    }
  }

  lemma {:induction false} ConsIsOk(zs: Zeros, f: FieldSpec, more: seq<FieldSpec>, z: Fields, x: Value)
    requires SpecOk(zs, more) && FieldOk(zs, f) && ZeroFields(zs, more, z) && ZeroValue(zs, f, x)
    requires forall i :: 0 <= i < |more| ==> more[i].name != f.name
    ensures SpecOk(zs, [f] + more) && ZeroFields(zs, [f] + more, z[f.name := x])
  {
  }

  lemma {:induction false} StructSpecIsOk(env: TypeEnv, zs: Zeros, d: FieldDecl, typ: FType, ty: GoType,
      ref: Option<GoType>, depth: nat, above: set<string>)
    requires ZerosOf(env, zs) && IsStruct(ty) && typ != TUint && (ref.Some? ==> ref.value == ty)
    requires StructMap(typ) ==> ref.Some?
    ensures var f := StructSpec(env, d, typ, ty, ref, depth, above);
      && f.name == d.name && f.typ == typ && f.ref == ref && FieldOk(zs, f)
      && ZeroFields(zs, f.fields, ZeroOf(zs, ty))
    decreases |env.Keys - above|, ty, 2
  {
    ExpandIsOk(env, zs, ty, depth, above);
  }

  lemma {:induction false} ArrayIsOk(env: TypeEnv, zs: Zeros, d: FieldDecl, ty: GoType, depth: nat, above: set<string>)
    requires ZerosOf(env, zs)
    ensures ArrayOf(env, d, ty, depth, above).Some? ==>
      var f := ArrayOf(env, d, ty, depth, above).value;
      f.name == d.name && f.typ.TArray? && FieldOk(zs, f)
    decreases |env.Keys - above|, ty, 4
  {
    if IsStruct(ty) {
      StructSpecIsOk(env, zs, d, TArray(SStruct), ty, None, depth + 1, above);
    } else if ty.GPtr? && IsStruct(ty.elem) {
      StructSpecIsOk(env, zs, d, TArray(SStruct), ty.elem, Some(ty.elem), depth + 1, above);
    }
  }

  lemma {:induction false} MapIsOk(env: TypeEnv, zs: Zeros, d: FieldDecl, depth: nat, above: set<string>)
    requires ZerosOf(env, zs) && d.ty.GMap?
    ensures FieldOf(env, d, depth, above).Some? ==>
      FieldFits(zs, d, FieldOf(env, d, depth, above).value)
    decreases |env.Keys - above|, d.ty, 4
  {
    var key, val := KeyType(d.ty.key), d.ty.val;
    if key.Some? && ScalarSub(val).None? && val.GPtr? && IsStruct(val.elem) {
      var sub := if KindOf(val.elem) == ANY_KIND then SAny else SStruct;
      StructSpecIsOk(env, zs, d, TMap(key.value, sub), val.elem, Some(val.elem), depth + 1, above);
    }
  }

  ghost predicate FieldFits(zs: Zeros, d: FieldDecl, f: FieldSpec) {
    f.name == d.name && FieldOk(zs, f) && ZeroValue(zs, f, ZeroOfType(zs, d.ty))
  }

  lemma {:induction false} SliceIsOk(env: TypeEnv, zs: Zeros, d: FieldDecl, depth: nat, above: set<string>)
    requires ZerosOf(env, zs) && d.ty.GSlice? && d.ty.elem != GByte
    ensures FieldOf(env, d, depth, above).Some? ==>
      FieldFits(zs, d, FieldOf(env, d, depth, above).value)
    decreases |env.Keys - above|, d.ty, 5
  {
    ArrayIsOk(env, zs, d, d.ty.elem, depth + 1, above);
  }

  lemma {:induction false} PointerIsOk(env: TypeEnv, zs: Zeros, d: FieldDecl, depth: nat, above: set<string>)
    requires ZerosOf(env, zs) && d.ty.GPtr? && IsStruct(d.ty.elem)
    ensures FieldOf(env, d, depth, above).Some? && FieldFits(zs, d, FieldOf(env, d, depth, above).value)
    decreases |env.Keys - above|, d.ty, 5
  {
    StructSpecIsOk(env, zs, d, TStruct, d.ty.elem, Some(d.ty.elem), depth + 1, above);
  }

  lemma {:induction false} HeldIsOk(env: TypeEnv, zs: Zeros, d: FieldDecl, depth: nat, above: set<string>)
    requires ZerosOf(env, zs) && IsStruct(d.ty)
    ensures FieldOf(env, d, depth, above).Some? && FieldFits(zs, d, FieldOf(env, d, depth, above).value)
    decreases |env.Keys - above|, d.ty, 5
  {
    StructSpecIsOk(env, zs, d, TStruct, d.ty, None, depth + 1, above);
  }

  lemma {:induction false} FieldIsOk(env: TypeEnv, zs: Zeros, d: FieldDecl, depth: nat, above: set<string>)
    requires ZerosOf(env, zs)
    ensures FieldOf(env, d, depth, above).Some? ==>
      FieldFits(zs, d, FieldOf(env, d, depth, above).value)
    decreases |env.Keys - above|, d, 0
  {
    match d.ty
    case GNamed(_) => HeldIsOk(env, zs, d, depth, above);
    case GAnon(_) => HeldIsOk(env, zs, d, depth, above);
    case GPtr(elem) =>
      if IsStruct(elem) {
        PointerIsOk(env, zs, d, depth, above);
      }
    case GSlice(elem) =>
      if elem != GByte {
        SliceIsOk(env, zs, d, depth, above);
      }
    case GMap(_, _) => MapIsOk(env, zs, d, depth, above);
    case _ =>
  }

  // -------------------------------------- values of the type have its shape

  /** Every value of a Go struct type has the shape its derived spec describes,
      so the merge laws hold of all values of all types. */
  lemma {:induction false} TypedIsShaped(env: TypeEnv, zs: Zeros, ty: GoType, depth: nat, above: set<string>, v: Fields)
    requires ZerosOf(env, zs) && IsStruct(ty) && StructHasType(env, ty, v)
    ensures Shaped(zs, Expand(env, ty, depth, above), v)
    decreases |env.Keys - above|, ty, 1
  {
    match ty
    case GNamed(kind) =>
      if kind !in above && kind in env {
        OneKindFewer(env.Keys, above, kind);
        TypedDeclsAreShaped(env, zs, env[kind], depth, above + {kind}, [], v);
      }
    case GAnon(decls) =>
      TypedDeclsAreShaped(env, zs, decls, depth, above, [], v);
  }

  lemma {:induction false} TypedDeclsAreShaped(env: TypeEnv, zs: Zeros, decls: seq<FieldDecl>, depth: nat,
      above: set<string>, names: seq<string>, v: Fields)
    requires ZerosOf(env, zs)
    requires DeclsHaveTypes(env, decls, v)
    ensures Shaped(zs, ExpandDecls(env, decls, depth, above, names), v)
    decreases |env.Keys - above|, decls, 0
  {
    if decls != [] {
      var d, rest := decls[0], decls[1..];
      forall i | 0 <= i < |rest| ensures rest[i].name in v && HasType(env, rest[i].ty, v[rest[i].name]) {
        assert rest[i] == decls[i + 1];
      }
      if !Exported(d.name) || d.name in names {
        TypedDeclsAreShaped(env, zs, rest, depth, above, names, v);
      } else {
        TypedDeclsAreShaped(env, zs, rest, depth, above, names + [d.name], v);
        TypedFieldIsShaped(env, zs, d, depth, above, v[d.name]);
        FieldOfName(env, d, depth, above);
        var more := ExpandDecls(env, rest, depth, above, names + [d.name]);
        match FieldOf(env, d, depth, above)
        case Some(f) =>
          var fs := [f] + more;
          forall i | 0 <= i < |fs| ensures fs[i].name in v && ShapedValue(zs, fs[i], v[fs[i].name]) {
            if i > 0 {
              assert fs[i] == more[i - 1];
            }
          }
        case None =>
      }
    }
  }

  lemma FieldOfName(env: TypeEnv, d: FieldDecl, depth: nat, above: set<string>)
    ensures FieldOf(env, d, depth, above).Some? ==> FieldOf(env, d, depth, above).value.name == d.name
  {
    match d.ty
    case GSlice(elem) =>
      if elem != GByte && ArrayOf(env, d, elem, depth + 1, above).Some? {
        assert ArrayOf(env, d, elem, depth + 1, above).value.name == d.name;
      }
    case _ =>
  }

  lemma {:induction false} TypedStructIsShaped(env: TypeEnv, zs: Zeros, d: FieldDecl, typ: FType, ty: GoType,
      ref: Option<GoType>, depth: nat, above: set<string>, x: Value)
    requires ZerosOf(env, zs) && IsStruct(ty) && (ref == None || ref == Some(ty))
    requires HasType(env, if ref.Some? then GPtr(ty) else ty, x)
    ensures ShapedStruct(zs, StructSpec(env, d, typ, ty, ref, depth, above), x)
    decreases |env.Keys - above|, ty, 2
  {
    var f := StructSpec(env, d, typ, ty, ref, depth, above);
    if x.VNil? {
      ExpandIsOk(env, zs, ty, depth, above);
      ZeroIsShaped(zs, f.fields, ZeroOf(zs, ty));
    } else {
      TypedIsShaped(env, zs, ty, depth, above, Deref(zs, x));
    }
  }

  lemma {:induction false} TypedArrayIsShaped(env: TypeEnv, zs: Zeros, d: FieldDecl, ty: GoType, depth: nat,
      above: set<string>, x: Value)
    requires ZerosOf(env, zs) && HasType(env, GSlice(ty), x)
    ensures ArrayOf(env, d, ty, depth, above).Some? ==>
      ShapedValue(zs, ArrayOf(env, d, ty, depth, above).value, x)
    decreases |env.Keys - above|, ty, 4
  {
    if ScalarSub(ty).Some? {
      forall i | 0 <= i < |x.items| ensures ItemOk(ScalarSub(ty).value, x.items[i]) {
        assert HasType(env, ty, x.items[i]);
      }
    } else if IsStruct(ty) {
      var f := StructSpec(env, d, TArray(SStruct), ty, None, depth + 1, above);
      assert depth <= MAX_DEPTH ==> ArrayOf(env, d, ty, depth, above) == Some(f);
      forall i | 0 <= i < |x.items|
        ensures ShapedStruct(zs, StructSpec(env, d, TArray(SStruct), ty, None, depth + 1, above), x.items[i])
      {
        TypedStructIsShaped(env, zs, d, TArray(SStruct), ty, None, depth + 1, above, x.items[i]);
      }
    } else if ty.GPtr? && IsStruct(ty.elem) {
      var f := StructSpec(env, d, TArray(SStruct), ty.elem, Some(ty.elem), depth + 1, above);
      assert depth <= MAX_DEPTH ==> ArrayOf(env, d, ty, depth, above) == Some(f);
      forall i | 0 <= i < |x.items|
        ensures ShapedStruct(zs, StructSpec(env, d, TArray(SStruct), ty.elem, Some(ty.elem), depth + 1, above), x.items[i])
      {
        TypedStructIsShaped(env, zs, d, TArray(SStruct), ty.elem, Some(ty.elem), depth + 1, above, x.items[i]);
      }
    }
  }

  lemma {:induction false} TypedEntryIsShaped(env: TypeEnv, zs: Zeros, d: FieldDecl, depth: nat, above: set<string>, x: Value)
    requires ZerosOf(env, zs) && d.ty.GMap? && HasType(env, d.ty.val, x)
    ensures FieldOf(env, d, depth, above).Some? ==>
      var f := FieldOf(env, d, depth, above).value; f.typ.TMap? && ShapedEntry(zs, f, x)
    decreases |env.Keys - above|, d.ty, 3
  {
    var key, val := KeyType(d.ty.key), d.ty.val;
    if key.Some? && ScalarSub(val).None? && val.GPtr? && IsStruct(val.elem) {
      var sub := if KindOf(val.elem) == ANY_KIND then SAny else SStruct;
      TypedStructIsShaped(env, zs, d, TMap(key.value, sub), val.elem, Some(val.elem), depth + 1, above, x);
    }
  }

  lemma {:induction false} TypedMapIsShaped(env: TypeEnv, zs: Zeros, d: FieldDecl, depth: nat, above: set<string>, x: Value)
    requires ZerosOf(env, zs) && d.ty.GMap? && HasType(env, d.ty, x)
    ensures FieldOf(env, d, depth, above).Some? ==>
      ShapedValue(zs, FieldOf(env, d, depth, above).value, x)
    decreases |env.Keys - above|, d.ty, 4
  {
    match FieldOf(env, d, depth, above)
    case None =>
    case Some(f) =>
      if x.VMap? {
        forall k | k in x.entries ensures f.typ.TMap? && ShapedEntry(zs, f, x.entries[k]) {
          TypedEntryIsShaped(env, zs, d, depth, above, x.entries[k]);
        }
      } else {
        forall k | k in x.numEntries ensures f.typ.TMap? && ShapedEntry(zs, f, x.numEntries[k]) {
          TypedEntryIsShaped(env, zs, d, depth, above, x.numEntries[k]);
        }
      }
      MapFieldType(env, d, depth, above);
  }

  lemma MapFieldType(env: TypeEnv, d: FieldDecl, depth: nat, above: set<string>)
    requires d.ty.GMap? && FieldOf(env, d, depth, above).Some?
    ensures var f := FieldOf(env, d, depth, above).value; f.typ.TMap? && KeyType(d.ty.key) == Some(f.typ.key)
  {
  }

  lemma {:induction false} TypedFieldIsShaped(env: TypeEnv, zs: Zeros, d: FieldDecl, depth: nat, above: set<string>, x: Value)
    requires ZerosOf(env, zs) && HasType(env, d.ty, x)
    ensures FieldOf(env, d, depth, above).Some? ==>
      ShapedValue(zs, FieldOf(env, d, depth, above).value, x)
    decreases |env.Keys - above|, d, 0
  {
    match d.ty
    case GNamed(_) => TypedStructIsShaped(env, zs, d, TStruct, d.ty, None, depth + 1, above, x);
    case GAnon(_) => TypedStructIsShaped(env, zs, d, TStruct, d.ty, None, depth + 1, above, x);
    case GPtr(elem) =>
      if IsStruct(elem) {
        TypedStructIsShaped(env, zs, d, TStruct, elem, Some(elem), depth + 1, above, x);
      }
    case GSlice(elem) =>
      if elem != GByte {
        TypedArrayIsShaped(env, zs, d, elem, depth + 1, above, x);
      }
    case GMap(_, _) => TypedMapIsShaped(env, zs, d, depth, above, x);
    case _ =>
  }

  // ------------------------------------------------- no kind unfolds twice

  /** p is a path of specs going down from one of fs. */
  ghost predicate Path(fs: seq<FieldSpec>, p: seq<FieldSpec>)
    decreases |p|
  {
    p != [] ==> p[0] in fs && Path(p[0].fields, p[1..])
  }

  /** Where the fields of a derived field come from: a struct type, expanded
      with the same kinds above one level deeper, or two for a slice. */
  lemma {:induction false} FieldOrigin(env: TypeEnv, decls: seq<FieldDecl>, depth: nat, above: set<string>,
      names: seq<string>, f: FieldSpec) returns (ty: GoType, down: nat)
    requires f in ExpandDecls(env, decls, depth, above, names) && f.fields != []
    ensures IsStruct(ty) && f.kind == KindOf(ty) && f.fields == Expand(env, ty, down, above)
    ensures down == if f.typ.TArray? then depth + 2 else depth + 1
    ensures exists i :: 0 <= i < |decls| && Mentions(decls[i].ty, ty)
    decreases |decls|
  {
    var d, rest := decls[0], decls[1..];
    var head := FieldOf(env, d, depth, above);
    if Exported(d.name) && d.name !in names && head == Some(f) {
      ty, down := StructBehind(env, d, depth, above);
    } else {
      var names' := if !Exported(d.name) || d.name in names then names else names + [d.name];
      ty, down := FieldOrigin(env, rest, depth, above, names', f);
      var i :| 0 <= i < |rest| && Mentions(rest[i].ty, ty);
      assert Mentions(decls[i + 1].ty, ty);
    }
  }

  lemma StructBehind(env: TypeEnv, d: FieldDecl, depth: nat, above: set<string>) returns (ty: GoType, down: nat)
    requires FieldOf(env, d, depth, above).Some? && FieldOf(env, d, depth, above).value.fields != []
    ensures var f := FieldOf(env, d, depth, above).value;
      IsStruct(ty) && f.kind == KindOf(ty) && f.fields == Expand(env, ty, down, above)
    ensures down == if FieldOf(env, d, depth, above).value.typ.TArray? then depth + 2 else depth + 1
    ensures Mentions(d.ty, ty)
  {
    var f := FieldOf(env, d, depth, above).value;
    ty, down := d.ty, depth + 1;
    if d.ty.GPtr? {
      ty := d.ty.elem;
    } else if d.ty.GSlice? {
      assert ArrayOf(env, d, d.ty.elem, depth + 1, above) == Some(f);
      ty, down := d.ty.elem, depth + 2;
      if ty.GPtr? {
        ty := ty.elem;
        assert f == StructSpec(env, d, TArray(SStruct), ty, Some(ty), down, above);
      } else {
        assert f == StructSpec(env, d, TArray(SStruct), ty, None, down, above);
      }
    } else if d.ty.GMap? {
      ty := d.ty.val.elem;
    }
  }

  /** ty is the struct type that a field of type t leads to. */
  predicate Mentions(t: GoType, ty: GoType) {
    || t == ty
    || t == GPtr(ty)
    || t == GSlice(ty)
    || t == GSlice(GPtr(ty))
    || (t.GMap? && t.val == GPtr(ty))
  }

  /** On a path below struct type ty no named kind has fields of its own twice,
      nor a kind that ty or anything above it already has. */
  lemma {:induction false} KindsUnfoldOnce(env: TypeEnv, ty: GoType, depth: nat, above: set<string>, p: seq<FieldSpec>)
    requires IsStruct(ty) && Path(Expand(env, ty, depth, above), p)
    ensures forall i :: 0 <= i < |p| && p[i].fields != [] && p[i].kind != "" ==>
      p[i].kind !in above && p[i].kind != KindOf(ty)
    ensures forall i, j :: 0 <= i < j < |p| && p[i].fields != [] && p[j].fields != [] && p[i].kind != "" ==>
      p[i].kind != p[j].kind
    decreases |p|
  {
    if p != [] {
      var here := if ty.GNamed? then above + {ty.kind} else above;
      if p[0].fields != [] {
        var next, down := FieldOrigin(env, DeclsOf(env, ty), depth, here, [], p[0]);
        KindsUnfoldOnce(env, next, down, here, p[1..]);
        forall i | 1 <= i < |p| ensures p[i] == p[1..][i - 1] {}
      } else {
        assert Path(p[0].fields, p[1..]) && p[1..] == [];
      }
    }
  }

  /** No anonymous struct types anywhere in the environment. */
  ghost predicate AllNamed(env: TypeEnv) {
    forall kind :: kind in env ==> forall i :: 0 <= i < |env[kind]| ==>
      forall ty :: Mentions(env[kind][i].ty, ty) ==> !ty.GAnon?
  }

  /** With named struct types only, a path below ty is no longer than the number
      of kinds still to unfold: a whole spec over N types has depth at most N. */
  lemma {:induction false} PathBound(env: TypeEnv, ty: GoType, depth: nat, above: set<string>, p: seq<FieldSpec>)
    requires AllNamed(env) && ty.GNamed? && Path(Expand(env, ty, depth, above), p)
    ensures |p| <= |env.Keys - above|
    decreases |p|
  {
    if p != [] {
      OneKindFewer(env.Keys, above, ty.kind);
      if p[0].fields != [] {
        var next, down := FieldOrigin(env, env[ty.kind], depth, above + {ty.kind}, [], p[0]);
        PathBound(env, next, down, above + {ty.kind}, p[1..]);
      } else {
        assert Path(p[0].fields, p[1..]) && p[1..] == [];
      }
    }
  }
}
