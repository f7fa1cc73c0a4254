/** Equality of structs up to allocation, the change flag, and associativity of
    the merge together with the exact condition for it. */
module MergeEquiv {
  import opened GoTypes
  import opened Merge
  import opened MergeLaws

  /** Equal, but for a nil pointer counting as a pointer to the zero struct. */
  ghost predicate Equiv(zs: Zeros, fs: seq<FieldSpec>, a: Fields, b: Fields)
    decreases fs, 0
  {
    && a.Keys == b.Keys
    && (forall k :: k in a && !HasName(fs, k) ==> a[k] == b[k])
    && (forall i :: 0 <= i < |fs| && fs[i].name in a ==>
          EquivValue(zs, fs[i], a[fs[i].name], b[fs[i].name]))
  }

  ghost predicate EquivValue(zs: Zeros, f: FieldSpec, x: Value, y: Value)
    decreases f, 0
  {
    if f.typ == TStruct && IsStructLike(x) && IsStructLike(y) then
      && x.VStruct? == y.VStruct?
      && (!x.VStruct? ==> x.rt == y.rt)
      && Equiv(zs, f.fields, Deref(zs, x), Deref(zs, y))
    else x == y
  }

  lemma {:induction false} EquivRefl(zs: Zeros, fs: seq<FieldSpec>, a: Fields)
    ensures Equiv(zs, fs, a, a)
    decreases fs
  {
    forall i | 0 <= i < |fs| && fs[i].name in a ensures EquivValue(zs, fs[i], a[fs[i].name], a[fs[i].name]) {
      EquivValueRefl(zs, fs[i], a[fs[i].name]);
    }
  }

  lemma {:induction false} EquivValueRefl(zs: Zeros, f: FieldSpec, x: Value)
    ensures EquivValue(zs, f, x, x)
    decreases f, 0
  {
    if f.typ == TStruct && IsStructLike(x) {
      EquivRefl(zs, f.fields, Deref(zs, x));
    }
  }

  lemma {:induction false} EquivSym(zs: Zeros, fs: seq<FieldSpec>, a: Fields, b: Fields)
    requires Equiv(zs, fs, a, b)
    ensures Equiv(zs, fs, b, a)
    decreases fs
  {
    forall i | 0 <= i < |fs| && fs[i].name in b ensures EquivValue(zs, fs[i], b[fs[i].name], a[fs[i].name]) {
      var f, x, y := fs[i], a[fs[i].name], b[fs[i].name];
      assert EquivValue(zs, f, x, y);
      if f.typ == TStruct && IsStructLike(x) && IsStructLike(y) {
        EquivSym(zs, f.fields, Deref(zs, x), Deref(zs, y));
      }
    }
  }

  lemma {:induction false} EquivTrans(zs: Zeros, fs: seq<FieldSpec>, a: Fields, b: Fields, c: Fields)
    requires Equiv(zs, fs, a, b) && Equiv(zs, fs, b, c)
    ensures Equiv(zs, fs, a, c)
    decreases fs
  {
    forall i | 0 <= i < |fs| && fs[i].name in a ensures EquivValue(zs, fs[i], a[fs[i].name], c[fs[i].name]) {
      EquivValueTrans(zs, fs[i], a[fs[i].name], b[fs[i].name], c[fs[i].name]);
    }
  }

  lemma {:induction false} EquivValueTrans(zs: Zeros, f: FieldSpec, x: Value, y: Value, z: Value)
    requires EquivValue(zs, f, x, y) && EquivValue(zs, f, y, z)
    ensures EquivValue(zs, f, x, z)
    decreases f, 0
  {
    if f.typ == TStruct && IsStructLike(x) && IsStructLike(y) && IsStructLike(z) {
      EquivTrans(zs, f.fields, Deref(zs, x), Deref(zs, y), Deref(zs, z));
    }
  }

  // ----------------------------------------------------------- change flag

  /** With the flag down, error or not, the merge changed nothing but may have
      allocated zero structs. */
  lemma {:induction false} FlagDownMeansUnchanged(zs: Zeros, fs: seq<FieldSpec>, d: Fields, s: Fields, mt: MergeType)
    requires SpecOk(zs, fs) && Shaped(zs, fs, d) && Shaped(zs, fs, s)
    requires !MergeFields(zs, fs, d, s, mt).chg
    ensures Equiv(zs, fs, d, MergeFields(zs, fs, d, s, mt).dst)
    decreases fs
  {
    FlagDown(zs, fs, d, s, mt);
    Frame(zs, fs, d, s, mt);
    var after := MergeFields(zs, fs, d, s, mt).dst;
    forall i | 0 <= i < |fs| ensures EquivValue(zs, fs[i], d[fs[i].name], after[fs[i].name]) {
      if after[fs[i].name] == d[fs[i].name] {
        EquivValueRefl(zs, fs[i], d[fs[i].name]);
      } else {
        assert Quiet(zs, fs[i], d, s, mt, after);
        QuietValueUnchanged(zs, fs[i], d[fs[i].name], s[fs[i].name], mt);
      }
    }
  }

  lemma {:induction false} QuietValueUnchanged(zs: Zeros, f: FieldSpec, x: Value, v: Value, mt: MergeType)
    requires FieldOk(zs, f) && ShapedValue(zs, f, x) && ShapedValue(zs, f, v)
    requires !MergeValue(zs, f, x, v, mt).chg
    ensures EquivValue(zs, f, x, MergeValue(zs, f, x, v, mt).val)
    decreases f, 0
  {
    if f.typ == TStruct {
      assert ShapedStruct(zs, f, x) && ShapedStruct(zs, f, v);
      if v.VNil? {
        EquivRefl(zs, f.fields, Deref(zs, x));
      } else {
        FlagDownMeansUnchanged(zs, f.fields, Deref(zs, x), Deref(zs, v), mt);
      }
    }
  }

  /** No slices and no maps at any depth; structs by value or behind pointers. */
  ghost predicate Plain(fs: seq<FieldSpec>)
    decreases fs
  {
    forall i :: 0 <= i < |fs| ==> !fs[i].typ.TArray? && !fs[i].typ.TMap? && (fs[i].typ == TStruct ==> Plain(fs[i].fields))
  }

  /** Without slices and maps, which raise the flag even when they replace the
      same by the same, the flag is up exactly when the destination changed by
      more than an allocation, error or not. */
  lemma {:induction false} FlagUpIffChanged(zs: Zeros, fs: seq<FieldSpec>, d: Fields, s: Fields, mt: MergeType)
    requires SpecOk(zs, fs) && Shaped(zs, fs, d) && Shaped(zs, fs, s) && Plain(fs)
    ensures MergeFields(zs, fs, d, s, mt).chg <==> !Equiv(zs, fs, d, MergeFields(zs, fs, d, s, mt).dst)
    decreases fs
  {
    if MergeFields(zs, fs, d, s, mt).chg {
      var i := FlagUp(zs, fs, d, s, mt);
      RaisedValueChanged(zs, fs[i], d[fs[i].name], s[fs[i].name], mt);
    } else {
      FlagDownMeansUnchanged(zs, fs, d, s, mt);
    }
  }

  lemma {:induction false} RaisedValueChanged(zs: Zeros, f: FieldSpec, x: Value, v: Value, mt: MergeType)
    requires FieldOk(zs, f) && ShapedValue(zs, f, x) && ShapedValue(zs, f, v)
    requires !f.typ.TArray? && !f.typ.TMap? && (f.typ == TStruct ==> Plain(f.fields))
    requires MergeValue(zs, f, x, v, mt).chg
    ensures !EquivValue(zs, f, x, MergeValue(zs, f, x, v, mt).val)
    decreases f, 0
  {
    if f.typ == TStruct {
      assert ShapedStruct(zs, f, x) && ShapedStruct(zs, f, v);
      FlagUpIffChanged(zs, f.fields, Deref(zs, x), Deref(zs, v), mt);
    }
  }

  /** Every struct is held by value. */
  ghost predicate Unboxed(fs: seq<FieldSpec>)
    decreases fs
  {
    forall i :: 0 <= i < |fs| ==> fs[i].typ == TStruct ==> fs[i].ref.None? && Unboxed(fs[i].fields)
  }

  /** Without pointers there is nothing to allocate. */
  lemma {:induction false} EquivIsEqual(zs: Zeros, fs: seq<FieldSpec>, a: Fields, b: Fields)
    requires Unboxed(fs) && Shaped(zs, fs, a) && Equiv(zs, fs, a, b)
    ensures a == b
    decreases fs
  {
    forall k | k in a ensures a[k] == b[k] {
      if HasName(fs, k) {
        var i :| 0 <= i < |fs| && fs[i].name == k;
        assert ShapedValue(zs, fs[i], a[k]) && EquivValue(zs, fs[i], a[k], b[k]);
        if fs[i].typ == TStruct && IsStructLike(b[k]) {
          assert ShapedStruct(zs, fs[i], a[k]);
          EquivIsEqual(zs, fs[i].fields, Deref(zs, a[k]), Deref(zs, b[k]));
        }
      }
    }
  }

  /** So for scalars and structs held by value the flag is up exactly when the
      destination differs. */
  lemma FlagUpIffDiffers(zs: Zeros, fs: seq<FieldSpec>, d: Fields, s: Fields, mt: MergeType)
    requires SpecOk(zs, fs) && Shaped(zs, fs, d) && Shaped(zs, fs, s) && Plain(fs) && Unboxed(fs)
    ensures MergeFields(zs, fs, d, s, mt).chg <==> MergeFields(zs, fs, d, s, mt).dst != d
  {
    FlagUpIffChanged(zs, fs, d, s, mt);
    if Equiv(zs, fs, d, MergeFields(zs, fs, d, s, mt).dst) {
      EquivIsEqual(zs, fs, d, MergeFields(zs, fs, d, s, mt).dst);
    } else {
      EquivRefl(zs, fs, d);
    }
  }

  // --------------------------------------------------------- associativity

  predicate TakesDefault(f: FieldSpec) {
    (f.typ == TInt || f.typ == TUint) && DefaultOf(f) != 0
  }

  /** Merging a zero struct is accepted and overwrites nothing: no bool or
      string-keyed map, which always take the source, and no []byte, which is
      always refused, is held by value. */
  ghost predicate Inert(fs: seq<FieldSpec>)
    decreases fs
  {
    forall i :: 0 <= i < |fs| ==> InertField(fs[i])
  }

  ghost predicate InertField(f: FieldSpec)
    decreases f
  {
    && f.typ != TBool && f.typ != TBytes
    && !(f.typ.TMap? && f.typ.key == KString)
    && (f.typ == TStruct && f.ref.None? ==> Inert(f.fields))
  }

  /** No effective default anywhere, and an inert struct behind every pointer. */
  ghost predicate Associative(fs: seq<FieldSpec>)
    decreases fs
  {
    forall i :: 0 <= i < |fs| ==> AssociativeField(fs[i])
  }

  ghost predicate AssociativeField(f: FieldSpec)
    decreases f
  {
    && !TakesDefault(f)
    && (f.typ == TStruct ==> Associative(f.fields) && (f.ref.Some? ==> Inert(f.fields)))
  }

  /** Merging the zero struct changes nothing, if the spec is inert. */
  lemma {:induction false} ZeroMergesAway(zs: Zeros, fs: seq<FieldSpec>, d: Fields, z: Fields, mt: MergeType)
    requires NoOption(mt) && SpecOk(zs, fs) && Shaped(zs, fs, d) && ZeroFields(zs, fs, z)
    requires Associative(fs) && Inert(fs)
    ensures MergeFields(zs, fs, d, z, mt).err == NoErr
    ensures Equiv(zs, fs, MergeFields(zs, fs, d, z, mt).dst, d)
    decreases fs
  {
    ZeroIsShaped(zs, fs, z);
    Pointwise(zs, fs, d, z, mt);
    Frame(zs, fs, d, z, mt);
    var after := MergeFields(zs, fs, d, z, mt).dst;
    forall i | 0 <= i < |fs|
      ensures FieldResult(zs, fs[i], d, z, mt).err == NoErr
      ensures EquivValue(zs, fs[i], FieldResult(zs, fs[i], d, z, mt).val, d[fs[i].name])
    {
      ZeroValueMergesAway(zs, fs[i], d[fs[i].name], z[fs[i].name], mt);
    }
    forall i | 0 <= i < |fs| ensures EquivValue(zs, fs[i], after[fs[i].name], d[fs[i].name]) {
      assert Succeeds(zs, fs[i], d, z, mt, after);
    }
  }

  lemma {:induction false} ZeroValueMergesAway(zs: Zeros, f: FieldSpec, x: Value, v: Value, mt: MergeType)
    requires NoOption(mt) && FieldOk(zs, f) && ShapedValue(zs, f, x) && ZeroValue(zs, f, v)
    requires AssociativeField(f) && InertField(f)
    ensures MergeValue(zs, f, x, v, mt).err == NoErr
    ensures EquivValue(zs, f, MergeValue(zs, f, x, v, mt).val, x)
    decreases f, 0
  {
    if f.typ == TStruct {
      assert ShapedStruct(zs, f, x);
      if v.VNil? {
        EquivRefl(zs, f.fields, Deref(zs, x));
      } else {
        ZeroMergesAway(zs, f.fields, Deref(zs, x), Deref(zs, v), mt);
      }
    }
  }

  /** Merging into equivalent destinations gives equivalent results. */
  lemma {:induction false} MergeRespectsEquiv(zs: Zeros, fs: seq<FieldSpec>, d: Fields, e: Fields, s: Fields, mt: MergeType)
    requires NoOption(mt) && SpecOk(zs, fs)
    requires Shaped(zs, fs, d) && Shaped(zs, fs, e) && Shaped(zs, fs, s)
    requires Equiv(zs, fs, d, e) && Accepts(fs, s)
    ensures Equiv(zs, fs, MergeFields(zs, fs, d, s, mt).dst, MergeFields(zs, fs, e, s, mt).dst)
    decreases fs
  {
    SucceedsIffAccepted(zs, fs, d, s, mt);
    SucceedsIffAccepted(zs, fs, e, s, mt);
    Pointwise(zs, fs, d, s, mt);
    Pointwise(zs, fs, e, s, mt);
    Frame(zs, fs, d, s, mt);
    Frame(zs, fs, e, s, mt);
    var d', e' := MergeFields(zs, fs, d, s, mt).dst, MergeFields(zs, fs, e, s, mt).dst;
    forall i | 0 <= i < |fs| ensures EquivValue(zs, fs[i], d'[fs[i].name], e'[fs[i].name]) {
      assert Succeeds(zs, fs[i], d, s, mt, d') && Succeeds(zs, fs[i], e, s, mt, e');
      ValueRespectsEquiv(zs, fs[i], d[fs[i].name], e[fs[i].name], s[fs[i].name], mt);
    }
  }

  lemma {:induction false} ValueRespectsEquiv(zs: Zeros, f: FieldSpec, x: Value, y: Value, v: Value, mt: MergeType)
    requires NoOption(mt) && FieldOk(zs, f)
    requires ShapedValue(zs, f, x) && ShapedValue(zs, f, y) && ShapedValue(zs, f, v)
    requires EquivValue(zs, f, x, y) && AcceptsValue(f, v)
    ensures EquivValue(zs, f, MergeValue(zs, f, x, v, mt).val, MergeValue(zs, f, y, v, mt).val)
    decreases f, 0
  {
    if f.typ == TStruct {
      assert ShapedStruct(zs, f, x) && ShapedStruct(zs, f, y) && ShapedStruct(zs, f, v);
      if !v.VNil? {
        MergeRespectsEquiv(zs, f.fields, Deref(zs, x), Deref(zs, y), Deref(zs, v), mt);
      }
    }
  }

  /** Merging a then b into d, and merging (b merged into a) into d. */
  ghost predicate Associates(zs: Zeros, fs: seq<FieldSpec>, d: Fields, a: Fields, b: Fields, mt: MergeType) {
    var da := MergeFields(zs, fs, d, a, mt);
    var ab := MergeFields(zs, fs, a, b, mt);
    && ab.err == NoErr
    && MergeFields(zs, fs, d, ab.dst, mt).err == NoErr
    && Equiv(zs, fs, MergeFields(zs, fs, da.dst, b, mt).dst, MergeFields(zs, fs, d, ab.dst, mt).dst)
  }

  ghost predicate AssociatesValue(zs: Zeros, f: FieldSpec, x: Value, a: Value, b: Value, mt: MergeType) {
    var xa := MergeValue(zs, f, x, a, mt);
    var ab := MergeValue(zs, f, a, b, mt);
    && ab.err == NoErr
    && MergeValue(zs, f, x, ab.val, mt).err == NoErr
    && EquivValue(zs, f, MergeValue(zs, f, xa.val, b, mt).val, MergeValue(zs, f, x, ab.val, mt).val)
  }

  lemma {:induction false} MergeAssociates(zs: Zeros, fs: seq<FieldSpec>, d: Fields, a: Fields, b: Fields, mt: MergeType)
    requires NoOption(mt) && SpecOk(zs, fs) && Associative(fs)
    requires Shaped(zs, fs, d) && Shaped(zs, fs, a) && Shaped(zs, fs, b)
    requires Accepts(fs, a) && Accepts(fs, b)
    ensures Associates(zs, fs, d, a, b, mt)
    decreases fs, 0
  {
    var da, ab := MergeFields(zs, fs, d, a, mt).dst, MergeFields(zs, fs, a, b, mt).dst;
    KeepsShape(zs, fs, d, a, mt);
    KeepsShape(zs, fs, a, b, mt);
    SucceedsIffAccepted(zs, fs, d, a, mt);
    SucceedsIffAccepted(zs, fs, a, b, mt);
    SucceedsIffAccepted(zs, fs, da, b, mt);
    Pointwise(zs, fs, d, a, mt);
    Pointwise(zs, fs, a, b, mt);
    Pointwise(zs, fs, da, b, mt);
    Pointwise(zs, fs, d, ab, mt);
    Frame(zs, fs, d, a, mt);
    Frame(zs, fs, da, b, mt);
    Frame(zs, fs, d, ab, mt);
    var left, right := MergeFields(zs, fs, da, b, mt).dst, MergeFields(zs, fs, d, ab, mt).dst;
    forall i | 0 <= i < |fs|
      ensures FieldResult(zs, fs[i], d, ab, mt).err == NoErr
      ensures EquivValue(zs, fs[i], left[fs[i].name], FieldResult(zs, fs[i], d, ab, mt).val)
    {
      assert Succeeds(zs, fs[i], d, a, mt, da) && Succeeds(zs, fs[i], a, b, mt, ab);
      assert Succeeds(zs, fs[i], da, b, mt, left);
      ValueAssociates(zs, fs[i], d[fs[i].name], a[fs[i].name], b[fs[i].name], mt);
    }
    forall i | 0 <= i < |fs| ensures EquivValue(zs, fs[i], left[fs[i].name], right[fs[i].name]) {
      assert Succeeds(zs, fs[i], d, ab, mt, right);
    }
  }

  lemma {:induction false} ValueAssociates(zs: Zeros, f: FieldSpec, x: Value, a: Value, b: Value, mt: MergeType)
    requires NoOption(mt) && FieldOk(zs, f) && AssociativeField(f)
    requires ShapedValue(zs, f, x) && ShapedValue(zs, f, a) && ShapedValue(zs, f, b)
    requires AcceptsValue(f, a) && AcceptsValue(f, b)
    ensures AssociatesValue(zs, f, x, a, b, mt)
    decreases f, 1
  {
    if f.typ == TStruct {
      assert ShapedStruct(zs, f, x) && ShapedStruct(zs, f, a) && ShapedStruct(zs, f, b);
      StructAssociates(zs, f, x, a, b, mt);
    } else if f.typ.TArray? {
      SliceAssociates(zs, f, x, a, b, mt);
    } else if f.typ.TMap? {
      MapAssociates(zs, f, x, a, b, mt);
    } else {
      ScalarAssociates(zs, f, x, a, b, mt);
    }
  }

  lemma ScalarAssociates(zs: Zeros, f: FieldSpec, x: Value, a: Value, b: Value, mt: MergeType)
    requires NoOption(mt) && AssociativeField(f) && FieldOk(zs, f)
    requires f.typ != TStruct && !f.typ.TArray? && !f.typ.TMap?
    requires ShapedValue(zs, f, x) && ShapedValue(zs, f, a) && ShapedValue(zs, f, b)
    requires AcceptsValue(f, a) && AcceptsValue(f, b)
    ensures AssociatesValue(zs, f, x, a, b, mt)
  {
    if f.typ == TInt || f.typ == TUint {
      NumberAssociates(zs, f, x, a, b, mt);
    }
  }

  /** Without a default the last number that is not zero stays. */
  lemma NumberAssociates(zs: Zeros, f: FieldSpec, x: Value, a: Value, b: Value, mt: MergeType)
    requires NoOption(mt) && !TakesDefault(f) && (f.typ == TInt || f.typ == TUint)
    requires ShapedValue(zs, f, x) && ShapedValue(zs, f, a) && ShapedValue(zs, f, b)
    requires AcceptsValue(f, a) && AcceptsValue(f, b)
    ensures AssociatesValue(zs, f, x, a, b, mt)
  {
    NumberMerged(zs, f, x, a, mt);
    NumberMerged(zs, f, a, b, mt);
    NumberMerged(zs, f, if IsZero(a) then x else a, b, mt);
    NumberMerged(zs, f, x, if IsZero(b) then a else b, mt);
  }

  predicate IsZero(x: Value) {
    x == VInt(0) || x == VUint(0)
  }

  lemma NumberMerged(zs: Zeros, f: FieldSpec, x: Value, v: Value, mt: MergeType)
    requires NoOption(mt) && !TakesDefault(f) && (f.typ == TInt || f.typ == TUint)
    requires ShapedValue(zs, f, x) && ShapedValue(zs, f, v) && AcceptsValue(f, v)
    ensures MergeValue(zs, f, x, v, mt).err == NoErr
    ensures MergeValue(zs, f, x, v, mt).val == if IsZero(v) then x else v
  {
  }

  /** Slices and maps are replaced whole. */
  lemma SliceAssociates(zs: Zeros, f: FieldSpec, x: Value, a: Value, b: Value, mt: MergeType)
    requires f.typ.TArray?
    requires ShapedValue(zs, f, x) && ShapedValue(zs, f, a) && ShapedValue(zs, f, b)
    requires AcceptsValue(f, a) && AcceptsValue(f, b)
    ensures AssociatesValue(zs, f, x, a, b, mt)
  {
  }

  lemma MapAssociates(zs: Zeros, f: FieldSpec, x: Value, a: Value, b: Value, mt: MergeType)
    requires f.typ.TMap?
    requires ShapedValue(zs, f, x) && ShapedValue(zs, f, a) && ShapedValue(zs, f, b)
    requires AcceptsValue(f, a) && AcceptsValue(f, b)
    ensures AssociatesValue(zs, f, x, a, b, mt)
  {
  }

  lemma {:induction false} StructAssociates(zs: Zeros, f: FieldSpec, x: Value, a: Value, b: Value, mt: MergeType)
    requires NoOption(mt) && FieldOk(zs, f) && AssociativeField(f) && f.typ == TStruct
    requires ShapedStruct(zs, f, x) && ShapedStruct(zs, f, a) && ShapedStruct(zs, f, b)
    requires AcceptsValue(f, a) && AcceptsValue(f, b)
    ensures AssociatesValue(zs, f, x, a, b, mt)
    decreases f, 0
  {
    if b.VNil? {
      NilLast(zs, f, x, a, b, mt);
    } else if a.VNil? {
      NilFirst(zs, f.fields, Deref(zs, x), Deref(zs, a), Deref(zs, b), mt);
    } else {
      MergeAssociates(zs, f.fields, Deref(zs, x), Deref(zs, a), Deref(zs, b), mt);
    }
  }

  /** A nil second source changes nothing, but allocates. */
  lemma {:induction false} NilLast(zs: Zeros, f: FieldSpec, x: Value, a: Value, b: Value, mt: MergeType)
    requires NoOption(mt) && FieldOk(zs, f) && AssociativeField(f) && f.typ == TStruct
    requires ShapedStruct(zs, f, x) && ShapedStruct(zs, f, a) && ShapedStruct(zs, f, b) && b.VNil?
    requires AcceptsValue(f, a)
    ensures AssociatesValue(zs, f, x, a, b, mt)
  {
    var X, A := Deref(zs, x), Deref(zs, a);
    var xa := MergeFields(zs, f.fields, X, A, mt).dst;
    if a.VNil? {
      ZeroMergesAway(zs, f.fields, X, A, mt);
      EquivSym(zs, f.fields, xa, X);
    } else {
      SucceedsIffAccepted(zs, f.fields, X, A, mt);
      EquivRefl(zs, f.fields, xa);
    }
  }

  /** A nil first source: its allocated zero struct drops out of the merge. */
  lemma {:induction false} NilFirst(zs: Zeros, fs: seq<FieldSpec>, d: Fields, z: Fields, b: Fields, mt: MergeType)
    requires NoOption(mt) && SpecOk(zs, fs) && Associative(fs) && Inert(fs)
    requires Shaped(zs, fs, d) && Shaped(zs, fs, b) && ZeroFields(zs, fs, z) && Accepts(fs, b)
    ensures var zb := MergeFields(zs, fs, z, b, mt);
      && zb.err == NoErr
      && MergeFields(zs, fs, d, zb.dst, mt).err == NoErr
      && Equiv(zs, fs, MergeFields(zs, fs, d, b, mt).dst, MergeFields(zs, fs, d, zb.dst, mt).dst)
    decreases fs, 1
  {
    ZeroIsShaped(zs, fs, z);
    ZeroMergesAway(zs, fs, d, z, mt);
    SucceedsIffAccepted(zs, fs, d, z, mt);
    MergeAssociates(zs, fs, d, z, b, mt);
    var dz, zb := MergeFields(zs, fs, d, z, mt).dst, MergeFields(zs, fs, z, b, mt).dst;
    KeepsShape(zs, fs, d, z, mt);
    MergeRespectsEquiv(zs, fs, dz, d, b, mt);
    EquivSym(zs, fs, MergeFields(zs, fs, dz, b, mt).dst, MergeFields(zs, fs, d, b, mt).dst);
    EquivTrans(zs, fs, MergeFields(zs, fs, d, b, mt).dst, MergeFields(zs, fs, dz, b, mt).dst,
      MergeFields(zs, fs, d, zb, mt).dst);
  }
}
