/** The merge associates on all values exactly when the spec is Associative: a
    spec that is not has a counterexample, built here field by field. */
module MergeExact {
  import opened GoTypes
  import opened Merge
  import opened MergeLaws
  import opened MergeEquiv

  lemma ReplaceKeepsShape(zs: Zeros, fs: seq<FieldSpec>, v: Fields, i: nat, x: Value)
    requires Distinct(fs) && Shaped(zs, fs, v) && i < |fs| && ShapedValue(zs, fs[i], x)
    ensures Shaped(zs, fs, v[fs[i].name := x])
  {
  }

  lemma ReplaceKeepsAccepted(fs: seq<FieldSpec>, v: Fields, i: nat, x: Value)
    requires Distinct(fs) && Accepts(fs, v) && i < |fs| && AcceptsValue(fs[i], x)
    ensures Accepts(fs, v[fs[i].name := x])
  {
  }

  lemma {:induction false} InertAcceptsZero(zs: Zeros, fs: seq<FieldSpec>, z: Fields)
    requires Inert(fs) && ZeroFields(zs, fs, z)
    ensures Accepts(fs, z)
    decreases fs
  {
    forall i | 0 <= i < |fs| ensures AcceptsValue(fs[i], z[fs[i].name]) {
      var v := z[fs[i].name];
      assert ZeroValue(zs, fs[i], v);
      if fs[i].typ == TStruct && fs[i].ref.None? {
        InertAcceptsZero(zs, fs[i].fields, v.fields);
      }
    }
  }

  /** Merging the zero struct z into d fails or changes d. */
  ghost predicate ZeroDisturbs(zs: Zeros, fs: seq<FieldSpec>, d: Fields, z: Fields, mt: MergeType) {
    var r := MergeFields(zs, fs, d, z, mt);
    r.err != NoErr || !Equiv(zs, fs, d, r.dst)
  }

  lemma {:induction false} DisturbedStruct(zs: Zeros, fs: seq<FieldSpec>, z: Fields, mt: MergeType) returns (d: Fields)
    requires NoOption(mt) && SpecOk(zs, fs) && ZeroFields(zs, fs, z) && !Inert(fs)
    ensures Shaped(zs, fs, d) && ZeroDisturbs(zs, fs, d, z, mt)
    decreases fs
  {
    ZeroIsShaped(zs, fs, z);
    var i :| 0 <= i < |fs| && !InertField(fs[i]);
    var x := DisturbedValue(zs, fs[i], z[fs[i].name], mt);
    d := z[fs[i].name := x];
    ReplaceKeepsShape(zs, fs, z, i, x);
    Pointwise(zs, fs, d, z, mt);
    var r := MergeFields(zs, fs, d, z, mt);
    if r.err == NoErr {
      assert Succeeds(zs, fs[i], d, z, mt, r.dst);
    }
  }

  /** A value that a map of this field can hold. */
  lemma SomeEntry(zs: Zeros, f: FieldSpec) returns (x: Value)
    requires FieldOk(zs, f) && f.typ.TMap?
    ensures ShapedEntry(zs, f, x)
  {
    match f.typ.sub
    case SBool => x := VBool(false);
    case SInt => x := VInt(0);
    case SUint => x := VUint(0);
    case SString => x := VStr("");
    case _ =>
      ZeroIsShaped(zs, f.fields, ZeroOf(zs, f.ref.value));
      x := VNil(f.ref.value);
  }

  lemma {:induction false} DisturbedValue(zs: Zeros, f: FieldSpec, z: Value, mt: MergeType) returns (x: Value)
    requires NoOption(mt) && FieldOk(zs, f) && ZeroValue(zs, f, z) && !InertField(f)
    ensures ShapedValue(zs, f, x)
    ensures MergeValue(zs, f, x, z, mt).err != NoErr || !EquivValue(zs, f, x, MergeValue(zs, f, x, z, mt).val)
    decreases f, 0
  {
    match f.typ
    case TBool => x := VBool(true);
    case TBytes => x := VSlice([]);
    case TMap(_, _) =>
      var entry := SomeEntry(zs, f);
      x := VMap(map["" := entry]);
      assert "" in x.entries && "" !in z.entries;
    case TStruct =>
      var inner := DisturbedStruct(zs, f.fields, z.fields, mt);
      x := VStruct(inner);
  }

  /** If field i alone does not associate, the whole struct does not. */
  lemma LiftCounterexample(zs: Zeros, fs: seq<FieldSpec>, i: nat, d: Fields, a: Fields, b: Fields, mt: MergeType)
    requires NoOption(mt) && SpecOk(zs, fs) && i < |fs|
    requires Shaped(zs, fs, d) && Shaped(zs, fs, a) && Shaped(zs, fs, b) && Accepts(fs, a) && Accepts(fs, b)
    requires !AssociatesValue(zs, fs[i], d[fs[i].name], a[fs[i].name], b[fs[i].name], mt)
    ensures !Associates(zs, fs, d, a, b, mt)
  {
    var f := fs[i];
    var da, ab := MergeFields(zs, fs, d, a, mt).dst, MergeFields(zs, fs, a, b, mt).dst;
    KeepsShape(zs, fs, d, a, mt);
    KeepsShape(zs, fs, a, b, mt);
    SucceedsIffAccepted(zs, fs, d, a, mt);
    SucceedsIffAccepted(zs, fs, a, b, mt);
    SucceedsIffAccepted(zs, fs, da, b, mt);
    Pointwise(zs, fs, d, a, mt);
    Pointwise(zs, fs, a, b, mt);
    Pointwise(zs, fs, da, b, mt);
    Pointwise(zs, fs, d, ab, mt);
    var left, right := MergeFields(zs, fs, da, b, mt), MergeFields(zs, fs, d, ab, mt);
    assert Succeeds(zs, f, d, a, mt, da) && Succeeds(zs, f, a, b, mt, ab) && Succeeds(zs, f, da, b, mt, left.dst);
    if right.err == NoErr {
      assert Succeeds(zs, f, d, ab, mt, right.dst);
    }
  }

  /** A pointer to a struct whose zero overwrites: two nil sources do not
      associate on a destination that the zero disturbs. */
  lemma {:induction false} NilCounterexample(zs: Zeros, f: FieldSpec, mt: MergeType) returns (x: Value, a: Value)
    requires NoOption(mt) && FieldOk(zs, f) && f.typ == TStruct && f.ref.Some? && !Inert(f.fields)
    ensures ShapedStruct(zs, f, x) && ShapedStruct(zs, f, a) && AcceptsValue(f, a)
    ensures !AssociatesValue(zs, f, x, a, a, mt)
    decreases f, 0
  {
    var zero := ZeroOf(zs, f.ref.value);
    var X := DisturbedStruct(zs, f.fields, zero, mt);
    ZeroIsShaped(zs, f.fields, zero);
    x, a := VPtr(f.ref.value, X), VNil(f.ref.value);
  }

  /** A field that is not associative has three values that do not associate. */
  lemma {:induction false} FieldCounterexample(zs: Zeros, f: FieldSpec, z: Value, mt: MergeType)
    returns (x: Value, a: Value, b: Value)
    requires NoOption(mt) && FieldOk(zs, f) && !AssociativeField(f)
    requires ZeroValue(zs, f, z) && AcceptsValue(f, z)
    ensures ShapedValue(zs, f, x) && ShapedValue(zs, f, a) && ShapedValue(zs, f, b)
    ensures AcceptsValue(f, a) && AcceptsValue(f, b)
    ensures !AssociatesValue(zs, f, x, a, b, mt)
    decreases f, 1
  {
    match f.typ
    case TInt =>
      x, a, b := VInt(if DefaultOf(f) == 1 then 2 else 1), VInt(0), VInt(0);
    case TUint =>
      x, a, b := VUint(if DefaultOf(f) == 1 then 2 else 1), VUint(0), VUint(0);
    case TStruct =>
      if f.ref.Some? && !Inert(f.fields) {
        x, a := NilCounterexample(zs, f, mt);
        b := a;
      } else {
        x, a, b := StructCounterexample(zs, f, z, mt);
      }
      assert ShapedStruct(zs, f, x) && ShapedStruct(zs, f, a) && ShapedStruct(zs, f, b);
  }

  /** A counterexample inside a struct, held by value or behind a pointer. */
  lemma {:induction false} StructCounterexample(zs: Zeros, f: FieldSpec, z: Value, mt: MergeType)
    returns (x: Value, a: Value, b: Value)
    requires NoOption(mt) && FieldOk(zs, f) && f.typ == TStruct && !Associative(f.fields)
    requires f.ref.Some? ==> Inert(f.fields)
    requires ZeroValue(zs, f, z) && AcceptsValue(f, z)
    ensures ShapedStruct(zs, f, x) && ShapedStruct(zs, f, a) && ShapedStruct(zs, f, b)
    ensures AcceptsValue(f, a) && AcceptsValue(f, b)
    ensures !AssociatesValue(zs, f, x, a, b, mt)
    decreases f, 0
  {
    if f.ref.Some? {
      InertAcceptsZero(zs, f.fields, ZeroOf(zs, f.ref.value));
    }
    var X, A, B := Counterexample(zs, f.fields, Deref(zs, z), mt);
    x, a, b := Rewrap(z, X), Rewrap(z, A), Rewrap(z, B);
  }

  lemma {:induction false} Counterexample(zs: Zeros, fs: seq<FieldSpec>, z: Fields, mt: MergeType)
    returns (d: Fields, a: Fields, b: Fields)
    requires NoOption(mt) && SpecOk(zs, fs) && !Associative(fs)
    requires ZeroFields(zs, fs, z) && Accepts(fs, z)
    ensures Shaped(zs, fs, d) && Shaped(zs, fs, a) && Shaped(zs, fs, b)
    ensures Accepts(fs, a) && Accepts(fs, b)
    ensures !Associates(zs, fs, d, a, b, mt)
    decreases fs
  {
    ZeroIsShaped(zs, fs, z);
    var i :| 0 <= i < |fs| && !AssociativeField(fs[i]);
    var name := fs[i].name;
    var x, y, w := FieldCounterexample(zs, fs[i], z[name], mt);
    d, a, b := z[name := x], z[name := y], z[name := w];
    ReplaceKeepsShape(zs, fs, z, i, x);
    ReplaceKeepsShape(zs, fs, z, i, y);
    ReplaceKeepsShape(zs, fs, z, i, w);
    ReplaceKeepsAccepted(fs, z, i, y);
    ReplaceKeepsAccepted(fs, z, i, w);
    LiftCounterexample(zs, fs, i, d, a, b, mt);
  }

  /** No []byte is held by value, at any depth; nothing can be merged under a spec
      with one. */
  ghost predicate Mergeable(fs: seq<FieldSpec>)
    decreases fs
  {
    forall i :: 0 <= i < |fs| ==> MergeableField(fs[i])
  }

  ghost predicate MergeableField(f: FieldSpec)
    decreases f
  {
    f.typ != TBytes && (f.typ == TStruct && f.ref.None? ==> Mergeable(f.fields))
  }

  lemma {:induction false} ZeroIsAccepted(zs: Zeros, fs: seq<FieldSpec>, z: Fields)
    requires ZeroFields(zs, fs, z) && Mergeable(fs)
    ensures Accepts(fs, z)
    decreases fs
  {
    forall i | 0 <= i < |fs| ensures AcceptsValue(fs[i], z[fs[i].name]) {
      var v := z[fs[i].name];
      assert ZeroValue(zs, fs[i], v) && MergeableField(fs[i]);
      if fs[i].typ == TStruct && fs[i].ref.None? {
        ZeroIsAccepted(zs, fs[i].fields, v.fields);
      }
    }
  }

  lemma {:induction false} AcceptedIsMergeable(zs: Zeros, fs: seq<FieldSpec>, s: Fields)
    requires Shaped(zs, fs, s) && Accepts(fs, s)
    ensures Mergeable(fs)
    decreases fs
  {
    forall i | 0 <= i < |fs| ensures MergeableField(fs[i]) {
      assert ShapedValue(zs, fs[i], s[fs[i].name]) && AcceptsValue(fs[i], s[fs[i].name]);
      if fs[i].typ == TStruct && fs[i].ref.None? {
        assert ShapedStruct(zs, fs[i], s[fs[i].name]);
        AcceptedIsMergeable(zs, fs[i].fields, Deref(zs, s[fs[i].name]));
      }
    }
  }

  /** Some struct can be merged under a spec exactly if it holds no []byte by
      value; and then the zero struct can. */
  lemma MergeableIff(zs: Zeros, fs: seq<FieldSpec>)
    requires SpecOk(zs, fs)
    ensures Mergeable(fs) <==> exists s :: Shaped(zs, fs, s) && Accepts(fs, s)
    ensures Mergeable(fs) <==> Accepts(fs, SpecZero(fs))
  {
    SpecZeroIsZero(zs, fs);
    ZeroIsShaped(zs, fs, SpecZero(fs));
    if Mergeable(fs) {
      ZeroIsAccepted(zs, fs, SpecZero(fs));
      assert Shaped(zs, fs, SpecZero(fs)) && Accepts(fs, SpecZero(fs));
    }
    forall s | Shaped(zs, fs, s) && Accepts(fs, s) ensures Mergeable(fs) {
      AcceptedIsMergeable(zs, fs, s);
    }
  }

  /** Merging associates, for every destination and every two sources that can
      each be merged, if and only if no field has an effective default and no
      pointer leads to a struct whose zero is refused or overwrites; or no source
      can be merged at all. */
  lemma AssociativeIff(zs: Zeros, fs: seq<FieldSpec>, mt: MergeType)
    requires NoOption(mt) && SpecOk(zs, fs)
    ensures Associative(fs) || !Mergeable(fs) <==>
      forall d, a, b ::
        Shaped(zs, fs, d) && Shaped(zs, fs, a) && Shaped(zs, fs, b) && Accepts(fs, a) && Accepts(fs, b)
        ==> Associates(zs, fs, d, a, b, mt)
  {
    MergeableIff(zs, fs);
    if Associative(fs) {
      forall d, a, b | Shaped(zs, fs, d) && Shaped(zs, fs, a) && Shaped(zs, fs, b) && Accepts(fs, a) && Accepts(fs, b)
        ensures Associates(zs, fs, d, a, b, mt)
      {
        MergeAssociates(zs, fs, d, a, b, mt);
      }
    } else if Mergeable(fs) {
      SpecZeroIsZero(zs, fs);
      var d, a, b := Counterexample(zs, fs, SpecZero(fs), mt);
    }
  }
}
