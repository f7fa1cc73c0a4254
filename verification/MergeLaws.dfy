/** Laws of the merge, for every spec with distinct field names and all values
    of the declared shape. */
module MergeLaws {
  import opened GoTypes
  import opened Merge

  // ------------------------------------- what a spec says of a value, in numbers

  /** 0, or within the limits of the tag; without a tag any 64-bit number. */
  predicate IntAllowed(f: FieldSpec, i: int) {
    i == 0 ||
    match f.limits
    case Some(l) => l.min <= i <= l.max
    case None => -0x8000_0000_0000_0000 <= i <= 0x7fff_ffff_ffff_ffff
  }

  predicate UintAllowed(f: FieldSpec, n: nat) {
    n == 0 ||
    match f.limits
    case Some(l) => l.min <= n <= l.max
    case None => n <= 0xffff_ffff_ffff_ffff
  }

  /** Empty, or one of the listed strings, if any are listed. */
  predicate StringAllowed(f: FieldSpec, s: string) {
    s == "" || f.enums == [] || s in f.enums
  }

  /** The default of the tag if it lies within its limits; 0 is none. */
  function DefaultOf(f: FieldSpec): int {
    match f.limits
    case Some(l) => if l.min <= l.def <= l.max then l.def else 0
    case None => 0
  }

  /** The option asks for the field. */
  predicate AskedFor(f: FieldSpec, mt: MergeType) {
    match mt
    case Create => CreateRequired in f.attrs
    case Update => UpdateRequired in f.attrs
    case _ => false
  }

  /** x can stand in a slice or a map of this kind of elements. */
  predicate OfKind(sub: Sub, x: Value) {
    match sub
    case SBool => x.VBool?
    case SInt => x.VInt?
    case SUint => x.VUint?
    case SString => x.VStr?
    case _ => false
  }

  // ---------------------------------------------------------------- errors

  /** The merge can take v into field f. */
  ghost predicate AcceptsValue(f: FieldSpec, v: Value)
    decreases f, 0
  {
    match f.typ
    case TBool => true
    case TString => v.VStr? && StringAllowed(f, v.s)
    case TInt => v.VInt? && IntAllowed(f, v.i)
    case TUint => v.VUint? && UintAllowed(f, v.n)
    case TBytes => false
    case TArray(sub) => v.VSlice? && forall i :: 0 <= i < |v.items| ==> OfKind(sub, v.items[i])
    case TMap(KString, sub) => v.VMap? && forall k :: k in v.entries ==>
      if StructMap(f.typ) then v.entries[k].VPtr? else OfKind(sub, v.entries[k])
    case TMap(_, _) => true
    case TStruct =>
      match v
      case VNil(_) => true
      case VStruct(fields) => Accepts(f.fields, fields)
      case VPtr(_, target) => Accepts(f.fields, target)
      case _ => false
  }

  /** Every field of s is acceptable: its numbers within the limits or 0, its
      strings listed or empty, its elements of the right kind, no []byte. */
  ghost predicate Accepts(fs: seq<FieldSpec>, s: Fields)
    decreases fs, 0
  {
    forall i :: 0 <= i < |fs| ==> fs[i].name in s && AcceptsValue(fs[i], s[fs[i].name])
  }

  /** The limits of a spec do not carry a negative default for an unsigned
      field (a Go uint64 has none). */
  ghost predicate LimitsOk(fs: seq<FieldSpec>)
    decreases fs
  {
    forall i :: 0 <= i < |fs| ==>
      LimitsOk(fs[i].fields) && (fs[i].typ == TUint && fs[i].limits.Some? ==> 0 <= fs[i].limits.value.def)
  }

  ghost predicate SpecOk(zs: Zeros, fs: seq<FieldSpec>) {
    Distinct(fs) && ZerosFit(zs, fs) && LimitsOk(fs)
  }

  /** What SpecOk says of one field. */
  ghost predicate FieldOk(zs: Zeros, f: FieldSpec) {
    && SpecOk(zs, f.fields)
    && (StructMap(f.typ) ==> f.ref.Some?)
    && (f.typ == TUint && f.limits.Some? ==> 0 <= f.limits.value.def)
    && (f.ref.Some? ==> ZeroFields(zs, f.fields, ZeroOf(zs, f.ref.value)))
  }

  /** The create and update options ask for required fields; the others do not. */
  predicate NoOption(mt: MergeType) {
    mt != Create && mt != Update
  }

  /** Every field the option asks for is given: not a zero number, unless a zero
      destination takes a default, and not an empty string. */
  ghost predicate Supplies(zs: Zeros, fs: seq<FieldSpec>, d: Fields, s: Fields, mt: MergeType)
    requires Shaped(zs, fs, d) && Shaped(zs, fs, s)
    decreases fs, 0
  {
    forall i :: 0 <= i < |fs| ==> SuppliesValue(zs, fs[i], d[fs[i].name], s[fs[i].name], mt)
  }

  ghost predicate SuppliesValue(zs: Zeros, f: FieldSpec, x: Value, v: Value, mt: MergeType)
    requires ShapedValue(zs, f, x) && ShapedValue(zs, f, v)
    decreases f, 0
  {
    match f.typ
    case TInt => AskedFor(f, mt) ==> v.i != 0 || (x.i == 0 && DefaultOf(f) != 0)
    case TUint => AskedFor(f, mt) ==> v.n != 0 || (x.n == 0 && DefaultOf(f) != 0)
    case TString => AskedFor(f, mt) ==> v.s != ""
    case TStruct =>
      assert ShapedStruct(zs, f, x) && ShapedStruct(zs, f, v);
      v.VNil? || Supplies(zs, f.fields, Deref(zs, x), Deref(zs, v), mt)
    case _ => true
  }

  /** Under every option a merge succeeds exactly if the source is acceptable and
      supplies what the option asks for. */
  lemma {:induction false} SucceedsIffSupplied(zs: Zeros, fs: seq<FieldSpec>, d: Fields, s: Fields, mt: MergeType)
    requires SpecOk(zs, fs) && Shaped(zs, fs, d) && Shaped(zs, fs, s)
    ensures MergeFields(zs, fs, d, s, mt).err == NoErr <==> Accepts(fs, s) && Supplies(zs, fs, d, s, mt)
    decreases fs
  {
    Pointwise(zs, fs, d, s, mt);
    forall i | 0 <= i < |fs|
      ensures FieldResult(zs, fs[i], d, s, mt).err == NoErr <==>
        AcceptsValue(fs[i], s[fs[i].name]) && SuppliesValue(zs, fs[i], d[fs[i].name], s[fs[i].name], mt)
    {
      ValueSucceedsIffSupplied(zs, fs[i], d[fs[i].name], s[fs[i].name], mt);
    }
    if MergeFields(zs, fs, d, s, mt).err == NoErr {
      forall i | 0 <= i < |fs| ensures FieldResult(zs, fs[i], d, s, mt).err == NoErr {
        assert Succeeds(zs, fs[i], d, s, mt, MergeFields(zs, fs, d, s, mt).dst);
      }
    }
  }

  lemma {:induction false} ValueSucceedsIffSupplied(zs: Zeros, f: FieldSpec, x: Value, v: Value, mt: MergeType)
    requires FieldOk(zs, f) && ShapedValue(zs, f, x) && ShapedValue(zs, f, v)
    ensures MergeValue(zs, f, x, v, mt).err == NoErr <==> AcceptsValue(f, v) && SuppliesValue(zs, f, x, v, mt)
    decreases f, 0
  {
    if f.typ == TStruct {
      assert ShapedStruct(zs, f, x) && ShapedStruct(zs, f, v);
      if !v.VNil? {
        SucceedsIffSupplied(zs, f.fields, Deref(zs, x), Deref(zs, v), mt);
      }
    } else if f.typ.TArray? || f.typ.TMap? {
      WholeSucceedsIff(zs, f, x, v, mt);
    }
  }

  lemma WholeSucceedsIff(zs: Zeros, f: FieldSpec, x: Value, v: Value, mt: MergeType)
    requires f.typ.TArray? || f.typ.TMap?
    requires ShapedValue(zs, f, x) && ShapedValue(zs, f, v)
    ensures MergeValue(zs, f, x, v, mt).err == NoErr <==> AcceptsValue(f, v)
  {
  }

  lemma {:induction false} NothingAsked(zs: Zeros, fs: seq<FieldSpec>, d: Fields, s: Fields, mt: MergeType)
    requires NoOption(mt) && Shaped(zs, fs, d) && Shaped(zs, fs, s)
    ensures Supplies(zs, fs, d, s, mt)
    decreases fs
  {
    forall i | 0 <= i < |fs| ensures SuppliesValue(zs, fs[i], d[fs[i].name], s[fs[i].name], mt) {
      NothingAskedOf(zs, fs[i], d[fs[i].name], s[fs[i].name], mt);
    }
  }

  lemma {:induction false} NothingAskedOf(zs: Zeros, f: FieldSpec, x: Value, v: Value, mt: MergeType)
    requires NoOption(mt) && ShapedValue(zs, f, x) && ShapedValue(zs, f, v)
    ensures SuppliesValue(zs, f, x, v, mt)
    decreases f, 0
  {
    if f.typ == TStruct {
      assert ShapedStruct(zs, f, x) && ShapedStruct(zs, f, v);
      if !v.VNil? {
        NothingAsked(zs, f.fields, Deref(zs, x), Deref(zs, v), mt);
      }
    }
  }

  /** With no merge-type option, whether a merge succeeds depends on the source
      alone: exactly when every field of it is acceptable. */
  lemma SucceedsIffAccepted(zs: Zeros, fs: seq<FieldSpec>, d: Fields, s: Fields, mt: MergeType)
    requires NoOption(mt) && SpecOk(zs, fs) && Shaped(zs, fs, d) && Shaped(zs, fs, s)
    ensures MergeFields(zs, fs, d, s, mt).err == NoErr <==> Accepts(fs, s)
  {
    SucceedsIffSupplied(zs, fs, d, s, mt);
    NothingAsked(zs, fs, d, s, mt);
  }

  lemma ValueSucceedsIffAccepted(zs: Zeros, f: FieldSpec, x: Value, v: Value, mt: MergeType)
    requires NoOption(mt) && FieldOk(zs, f) && ShapedValue(zs, f, x) && ShapedValue(zs, f, v)
    ensures MergeValue(zs, f, x, v, mt).err == NoErr <==> AcceptsValue(f, v)
  {
    ValueSucceedsIffSupplied(zs, f, x, v, mt);
    NothingAskedOf(zs, f, x, v, mt);
  }

  /** On values of the declared shape reflection never panics, under any option. */
  lemma {:induction false} NeverPanics(zs: Zeros, fs: seq<FieldSpec>, d: Fields, s: Fields, mt: MergeType)
    requires SpecOk(zs, fs) && Shaped(zs, fs, d) && Shaped(zs, fs, s)
    ensures MergeFields(zs, fs, d, s, mt).err != Panics
    decreases fs
  {
    if MergeFields(zs, fs, d, s, mt).err != NoErr {
      ErrorOrigin(zs, fs, d, s, mt);
      var i :| 0 <= i < |fs| && FieldResult(zs, fs[i], d, s, mt).err == MergeFields(zs, fs, d, s, mt).err;
      ValueNeverPanics(zs, fs[i], d[fs[i].name], s[fs[i].name], mt);
    }
  }

  lemma {:induction false} ValueNeverPanics(zs: Zeros, f: FieldSpec, x: Value, v: Value, mt: MergeType)
    requires FieldOk(zs, f) && ShapedValue(zs, f, x) && ShapedValue(zs, f, v)
    ensures MergeValue(zs, f, x, v, mt).err != Panics
    decreases f, 0
  {
    if f.typ == TStruct && !v.VNil? {
      assert ShapedStruct(zs, f, x) && ShapedStruct(zs, f, v);
      NeverPanics(zs, f.fields, Deref(zs, x), Deref(zs, v), mt);
    }
  }

  /** A merge keeps the declared shape, also when it stops half-way. */
  lemma {:induction false} KeepsShape(zs: Zeros, fs: seq<FieldSpec>, d: Fields, s: Fields, mt: MergeType)
    requires SpecOk(zs, fs) && Shaped(zs, fs, d) && Shaped(zs, fs, s)
    ensures Shaped(zs, fs, MergeFields(zs, fs, d, s, mt).dst)
    decreases fs
  {
    AllSettled(zs, fs, d, s, mt);
    var after := MergeFields(zs, fs, d, s, mt).dst;
    forall i | 0 <= i < |fs| ensures ShapedValue(zs, fs[i], after[fs[i].name]) {
      assert Settled(zs, fs[i], d, s, mt, after);
      ValueKeepsShape(zs, fs[i], d[fs[i].name], s[fs[i].name], mt);
    }
  }

  lemma {:induction false} ValueKeepsShape(zs: Zeros, f: FieldSpec, x: Value, v: Value, mt: MergeType)
    requires FieldOk(zs, f) && ShapedValue(zs, f, x) && ShapedValue(zs, f, v)
    ensures ShapedValue(zs, f, MergeValue(zs, f, x, v, mt).val)
    decreases f, 0
  {
    if f.typ == TStruct && !v.VNil? {
      KeepsShape(zs, f.fields, Deref(zs, x), Deref(zs, v), mt);
    }
  }

  // ------------------------------------------------------------ what it yields

  /** What a field should hold after a merge, by its spec alone: a non-zero
      source, else a default for a zero destination, else the destination;
      flags and string-keyed maps from the source whatever they are; non-empty
      slices whole; structs field by field, a nil one being allocated. */
  ghost function Blend(zs: Zeros, f: FieldSpec, x: Value, v: Value): Value
    requires ShapedValue(zs, f, x) && ShapedValue(zs, f, v)
    decreases f, 0
  {
    match f.typ
    case TBool => v
    case TString => if v.s != "" then v else x
    case TInt => if v.i != 0 then v else if x.i == 0 && DefaultOf(f) != 0 then VInt(DefaultOf(f)) else x
    case TUint => if v.n != 0 then v else if x.n == 0 && DefaultOf(f) > 0 then VUint(DefaultOf(f)) else x
    case TBytes => x
    case TArray(_) => if v.items != [] then v else x
    case TMap(KString, _) => v
    case TMap(_, _) => x
    case TStruct =>
      assert ShapedStruct(zs, f, x) && ShapedStruct(zs, f, v);
      Rewrap(x, if v.VNil? then Deref(zs, x) else BlendFields(zs, f.fields, Deref(zs, x), Deref(zs, v)))
  }

  /** Every field of the spec blended on its own, everything else kept. */
  ghost function BlendFields(zs: Zeros, fs: seq<FieldSpec>, d: Fields, s: Fields): Fields
    requires Shaped(zs, fs, d) && Shaped(zs, fs, s)
    decreases fs, 1
  {
    map k | k in d :: if HasName(fs, k) then BlendNamed(zs, fs, d, s, k) else d[k]
  }

  ghost function BlendNamed(zs: Zeros, fs: seq<FieldSpec>, d: Fields, s: Fields, k: string): Value
    requires Shaped(zs, fs, d) && Shaped(zs, fs, s) && HasName(fs, k)
    decreases fs, 0
  {
    var i :| 0 <= i < |fs| && fs[i].name == k;
    Blend(zs, fs[i], d[k], s[k])
  }

  /** A successful merge is the field-by-field blend, in whatever order the loop
      visits the fields. */
  lemma {:induction false} MergeIsBlend(zs: Zeros, fs: seq<FieldSpec>, d: Fields, s: Fields, mt: MergeType)
    requires SpecOk(zs, fs) && Shaped(zs, fs, d) && Shaped(zs, fs, s)
    requires MergeFields(zs, fs, d, s, mt).err == NoErr
    ensures MergeFields(zs, fs, d, s, mt).dst == BlendFields(zs, fs, d, s)
    decreases fs, 1
  {
    Frame(zs, fs, d, s, mt);
    var after, blend := MergeFields(zs, fs, d, s, mt).dst, BlendFields(zs, fs, d, s);
    forall k | k in d ensures after[k] == blend[k] {
      if HasName(fs, k) {
        var i :| 0 <= i < |fs| && fs[i].name == k;
        FieldIsBlend(zs, fs, d, s, mt, i);
      }
    }
  }

  lemma {:induction false} FieldIsBlend(zs: Zeros, fs: seq<FieldSpec>, d: Fields, s: Fields, mt: MergeType, i: nat)
    requires SpecOk(zs, fs) && Shaped(zs, fs, d) && Shaped(zs, fs, s) && i < |fs|
    requires MergeFields(zs, fs, d, s, mt).err == NoErr
    ensures HasName(fs, fs[i].name) && fs[i].name in MergeFields(zs, fs, d, s, mt).dst
    ensures MergeFields(zs, fs, d, s, mt).dst[fs[i].name] == BlendNamed(zs, fs, d, s, fs[i].name)
    decreases fs, 0
  {
    Pointwise(zs, fs, d, s, mt);
    assert Succeeds(zs, fs[i], d, s, mt, MergeFields(zs, fs, d, s, mt).dst);
    ValueIsBlend(zs, fs[i], d[fs[i].name], s[fs[i].name], mt);
    BlendNamedIs(zs, fs, d, s, i);
  }

  lemma BlendNamedIs(zs: Zeros, fs: seq<FieldSpec>, d: Fields, s: Fields, i: nat)
    requires Distinct(fs) && Shaped(zs, fs, d) && Shaped(zs, fs, s) && i < |fs|
    ensures HasName(fs, fs[i].name)
    ensures BlendNamed(zs, fs, d, s, fs[i].name) == Blend(zs, fs[i], d[fs[i].name], s[fs[i].name])
  {
  }

  lemma {:induction false} ValueIsBlend(zs: Zeros, f: FieldSpec, x: Value, v: Value, mt: MergeType)
    requires FieldOk(zs, f) && ShapedValue(zs, f, x) && ShapedValue(zs, f, v)
    requires MergeValue(zs, f, x, v, mt).err == NoErr
    ensures MergeValue(zs, f, x, v, mt).val == Blend(zs, f, x, v)
    decreases f, 1
  {
    if f.typ == TStruct && !v.VNil? {
      assert ShapedStruct(zs, f, x) && ShapedStruct(zs, f, v);
      MergeIsBlend(zs, f.fields, Deref(zs, x), Deref(zs, v), mt);
    }
  }

  // ------------------------------------------------- where a merge stops half-way

  /** Field i is the first that the merge refuses. */
  ghost predicate FirstRefused(fs: seq<FieldSpec>, s: Fields, i: int) {
    && 0 <= i < |fs| && fs[i].name in s && !AcceptsValue(fs[i], s[fs[i].name])
    && forall j :: 0 <= j < i ==> fs[j].name in s && AcceptsValue(fs[j], s[fs[j].name])
  }

  lemma {:induction false} SomeFirstRefused(fs: seq<FieldSpec>, s: Fields, n: nat) returns (i: nat)
    requires HasFields(fs, s) && n <= |fs|
    requires exists j :: 0 <= j < n && !AcceptsValue(fs[j], s[fs[j].name])
    ensures FirstRefused(fs, s, i) && i < n
    decreases n
  {
    if j :| 0 <= j < n - 1 && !AcceptsValue(fs[j], s[fs[j].name]) {
      i := SomeFirstRefused(fs, s, n - 1);
    } else {
      i := n - 1;
    }
  }

  /** s is refused at some field, and by then something was written: an earlier
      field differs from its blend, or the refused one is a struct that was nil or
      in which the same holds. */
  ghost predicate StopsHalf(zs: Zeros, fs: seq<FieldSpec>, d: Fields, s: Fields)
    requires Shaped(zs, fs, d) && Shaped(zs, fs, s)
    decreases fs, 0
  {
    exists i :: FirstRefused(fs, s, i) &&
      ((exists j :: 0 <= j < i && Blend(zs, fs[j], d[fs[j].name], s[fs[j].name]) != d[fs[j].name])
       || StopsHalfIn(zs, fs[i], d[fs[i].name], s[fs[i].name]))
  }

  ghost predicate StopsHalfIn(zs: Zeros, f: FieldSpec, x: Value, v: Value)
    requires ShapedValue(zs, f, x) && ShapedValue(zs, f, v)
    decreases f, 0
  {
    f.typ == TStruct &&
      assert ShapedStruct(zs, f, x) && ShapedStruct(zs, f, v);
      (x.VNil? || StopsHalf(zs, f.fields, Deref(zs, x), Deref(zs, v)))
  }

  /** What a merge refused at field i leaves behind. */
  lemma RefusedAt(zs: Zeros, fs: seq<FieldSpec>, d: Fields, s: Fields, mt: MergeType, i: nat)
    requires NoOption(mt) && SpecOk(zs, fs) && Shaped(zs, fs, d) && Shaped(zs, fs, s) && FirstRefused(fs, s, i)
    ensures MergeFields(zs, fs, d, s, mt).dst.Keys == d.Keys
    ensures MergeFields(zs, fs, d, s, mt).err == MergeValue(zs, fs[i], d[fs[i].name], s[fs[i].name], mt).err
    ensures forall j :: 0 <= j < i ==>
      MergeFields(zs, fs, d, s, mt).dst[fs[j].name] == Blend(zs, fs[j], d[fs[j].name], s[fs[j].name])
    ensures MergeFields(zs, fs, d, s, mt).dst[fs[i].name] == MergeValue(zs, fs[i], d[fs[i].name], s[fs[i].name], mt).val
    ensures forall j :: i < j < |fs| ==> MergeFields(zs, fs, d, s, mt).dst[fs[j].name] == d[fs[j].name]
  {
    forall j | 0 <= j <= i
      ensures FieldResult(zs, fs[j], d, s, mt).err == NoErr <==> j < i
      ensures j < i ==> FieldResult(zs, fs[j], d, s, mt).val == Blend(zs, fs[j], d[fs[j].name], s[fs[j].name])
    {
      ValueSucceedsIffAccepted(zs, fs[j], d[fs[j].name], s[fs[j].name], mt);
      if j < i {
        ValueIsBlend(zs, fs[j], d[fs[j].name], s[fs[j].name], mt);
      }
    }
    StopsAt(zs, fs, d, s, mt, i);
  }

  lemma FirstRefusedIsOne(fs: seq<FieldSpec>, s: Fields, i: int, j: int)
    requires FirstRefused(fs, s, i) && FirstRefused(fs, s, j)
    ensures i == j
  {
  }

  /** What StopsHalf says of the field where the merge stops. */
  ghost predicate StopsHalfAt(zs: Zeros, fs: seq<FieldSpec>, d: Fields, s: Fields, i: int)
    requires Shaped(zs, fs, d) && Shaped(zs, fs, s) && 0 <= i < |fs|
  {
    || (exists j :: 0 <= j < i && Blend(zs, fs[j], d[fs[j].name], s[fs[j].name]) != d[fs[j].name])
    || StopsHalfIn(zs, fs[i], d[fs[i].name], s[fs[i].name])
  }

  lemma StopsHalfThere(zs: Zeros, fs: seq<FieldSpec>, d: Fields, s: Fields, i: int)
    requires Shaped(zs, fs, d) && Shaped(zs, fs, s) && FirstRefused(fs, s, i)
    ensures StopsHalf(zs, fs, d, s) <==> StopsHalfAt(zs, fs, d, s, i)
  {
    if StopsHalf(zs, fs, d, s) {
      var k :| FirstRefused(fs, s, k) &&
        ((exists j :: 0 <= j < k && Blend(zs, fs[j], d[fs[j].name], s[fs[j].name]) != d[fs[j].name])
         || StopsHalfIn(zs, fs[k], d[fs[k].name], s[fs[k].name]));
      FirstRefusedIsOne(fs, s, i, k);
    }
  }

  /** A refused merge changed the destination exactly if it stops half-way in
      that sense. */
  lemma {:induction false} StopsHalfIff(zs: Zeros, fs: seq<FieldSpec>, d: Fields, s: Fields, mt: MergeType)
    requires NoOption(mt) && SpecOk(zs, fs) && Shaped(zs, fs, d) && Shaped(zs, fs, s) && !Accepts(fs, s)
    ensures StopsHalf(zs, fs, d, s) <==> MergeFields(zs, fs, d, s, mt).dst != d
    decreases fs
  {
    var i := SomeFirstRefused(fs, s, |fs|);
    StopsHalfThere(zs, fs, d, s, i);
    RefusedAt(zs, fs, d, s, mt, i);
    RefusedValueIff(zs, fs[i], d[fs[i].name], s[fs[i].name], mt);
    DiffersIffField(zs, fs, d, s, mt);
  }

  /** A merge changed the destination exactly if it changed some field of it. */
  lemma DiffersIffField(zs: Zeros, fs: seq<FieldSpec>, d: Fields, s: Fields, mt: MergeType)
    requires HasFields(fs, d)
    ensures MergeFields(zs, fs, d, s, mt).dst.Keys == d.Keys
    ensures MergeFields(zs, fs, d, s, mt).dst != d <==>
      exists j :: 0 <= j < |fs| && MergeFields(zs, fs, d, s, mt).dst[fs[j].name] != d[fs[j].name]
  {
    Frame(zs, fs, d, s, mt);
    var after := MergeFields(zs, fs, d, s, mt).dst;
    if after != d {
      var k :| k in d && after[k] != d[k];
      var j :| 0 <= j < |fs| && fs[j].name == k;
    }
  }

  lemma {:induction false} RefusedValueIff(zs: Zeros, f: FieldSpec, x: Value, v: Value, mt: MergeType)
    requires NoOption(mt) && FieldOk(zs, f) && ShapedValue(zs, f, x) && ShapedValue(zs, f, v) && !AcceptsValue(f, v)
    ensures StopsHalfIn(zs, f, x, v) <==> MergeValue(zs, f, x, v, mt).val != x
    decreases f, 0
  {
    if f.typ == TStruct {
      assert ShapedStruct(zs, f, x) && ShapedStruct(zs, f, v);
      StopsHalfIff(zs, f.fields, Deref(zs, x), Deref(zs, v), mt);
    }
  }

  /** What is said of a refused value that is no struct. */
  function Refusal(typ: FType): MergeError {
    match typ
    case TInt => ErrLimit
    case TUint => ErrLimit
    case TString => ErrEnum
    case TArray(_) => ErrItem
    case TMap(_, _) => ErrItem
    case _ => ErrType
  }

  /** The merge gets as far as field i and accepts it. */
  ghost predicate Reached(fs: seq<FieldSpec>, s: Fields, i: int) {
    0 <= i < |fs| && forall j :: 0 <= j <= i ==> fs[j].name in s && AcceptsValue(fs[j], s[fs[j].name])
  }

  /** Any field but a struct, after a merge that may have failed: its blend if the
      merge got there and accepts it, else as it was. */
  lemma FieldAfterMerge(zs: Zeros, fs: seq<FieldSpec>, d: Fields, s: Fields, mt: MergeType, i: nat)
    requires NoOption(mt) && SpecOk(zs, fs) && Shaped(zs, fs, d) && Shaped(zs, fs, s) && i < |fs|
    ensures MergeFields(zs, fs, d, s, mt).dst.Keys == d.Keys
    ensures var after := MergeFields(zs, fs, d, s, mt).dst[fs[i].name];
      if Reached(fs, s, i) then after == Blend(zs, fs[i], d[fs[i].name], s[fs[i].name])
      else fs[i].typ != TStruct ==> after == d[fs[i].name]
    ensures MergeFields(zs, fs, d, s, mt).err == NoErr ==> Reached(fs, s, i)
  {
    Frame(zs, fs, d, s, mt);
    SucceedsIffAccepted(zs, fs, d, s, mt);
    if Accepts(fs, s) {
      Pointwise(zs, fs, d, s, mt);
      assert Succeeds(zs, fs[i], d, s, mt, MergeFields(zs, fs, d, s, mt).dst);
      ValueIsBlend(zs, fs[i], d[fs[i].name], s[fs[i].name], mt);
    } else {
      var k := SomeFirstRefused(fs, s, |fs|);
      RefusedAt(zs, fs, d, s, mt, k);
      if i == k && fs[i].typ != TStruct {
        LeafIsRefused(zs, fs[i], d[fs[i].name], s[fs[i].name], mt);
      }
    }
  }

  /** A refused value that is no struct leaves the field alone. */
  lemma LeafIsRefused(zs: Zeros, f: FieldSpec, x: Value, v: Value, mt: MergeType)
    requires FieldOk(zs, f) && ShapedValue(zs, f, x) && ShapedValue(zs, f, v) && f.typ != TStruct && !AcceptsValue(f, v)
    ensures MergeValue(zs, f, x, v, mt) == FieldOut(x, false, Refusal(f.typ))
  {
  }

  /** The error a merge stops with is that of the first field it refuses. */
  lemma FirstRefusalIsError(zs: Zeros, fs: seq<FieldSpec>, d: Fields, s: Fields, mt: MergeType, i: nat)
    requires NoOption(mt) && SpecOk(zs, fs) && Shaped(zs, fs, d) && Shaped(zs, fs, s) && FirstRefused(fs, s, i)
    ensures fs[i].typ != TStruct ==> MergeFields(zs, fs, d, s, mt).err == Refusal(fs[i].typ)
  {
    RefusedAt(zs, fs, d, s, mt, i);
    if fs[i].typ != TStruct {
      LeafIsRefused(zs, fs[i], d[fs[i].name], s[fs[i].name], mt);
    }
  }

  // ----------------------------------------------------------------- numbers

  /** An int field: refused exactly outside the limits, 0 apart; otherwise a
      non-zero source is taken, a zero one lets a zero destination take the
      default; without a tag no 64-bit number is refused and nothing is filled. */
  lemma IntOutcome(zs: Zeros, f: FieldSpec, x: Value, v: Value, mt: MergeType)
    requires f.typ == TInt && x.VInt? && v.VInt?
    ensures var r := MergeValue(zs, f, x, v, mt);
      match f.limits {
        case Some(l) =>
          && (r.err == ErrLimit <==> v.i != 0 && (v.i < l.min || v.i > l.max))
          && r.val == (if r.err == ErrLimit then x
                       else if v.i != 0 then v
                       else if x.i == 0 && l.def != 0 && l.min <= l.def <= l.max then VInt(l.def)
                       else x)
        case None =>
          && (-0x8000_0000_0000_0000 <= v.i <= 0x7fff_ffff_ffff_ffff ==> r.err != ErrLimit)
          && r.val == (if v.i == 0 || r.err == ErrLimit then x else v)
      }
    ensures var r := MergeValue(zs, f, x, v, mt);
      && (r.err == ErrRequired <==> v.i == 0 && r.val == x && AskedFor(f, mt))
      && (r.err == NoErr || r.err == ErrLimit || r.err == ErrRequired)
      && (r.chg <==> r.val != x)
  {
  }

  lemma UintOutcome(zs: Zeros, f: FieldSpec, x: Value, v: Value, mt: MergeType)
    requires f.typ == TUint && x.VUint? && v.VUint? && (f.limits.Some? ==> f.limits.value.def >= 0)
    ensures var r := MergeValue(zs, f, x, v, mt);
      match f.limits {
        case Some(l) =>
          && (r.err == ErrLimit <==> v.n != 0 && (v.n < l.min || v.n > l.max))
          && r.val == (if r.err == ErrLimit then x
                       else if v.n != 0 then v
                       else if x.n == 0 && l.def != 0 && l.min <= l.def <= l.max then VUint(l.def)
                       else x)
        case None =>
          && (v.n <= 0xffff_ffff_ffff_ffff ==> r.err != ErrLimit)
          && r.val == (if v.n == 0 || r.err == ErrLimit then x else v)
      }
    ensures var r := MergeValue(zs, f, x, v, mt);
      && (r.err == ErrRequired <==> v.n == 0 && r.val == x && AskedFor(f, mt))
      && (r.err == NoErr || r.err == ErrLimit || r.err == ErrRequired)
      && (r.chg <==> r.val != x)
  {
  }

  // -------------------------------------------------------------- validity

  /** Every number in d is 0 or within its limits and every string is empty or
      listed, at every depth. */
  ghost predicate Valid(zs: Zeros, fs: seq<FieldSpec>, d: Fields)
    decreases fs, 0
  {
    forall i :: 0 <= i < |fs| ==> fs[i].name in d && ValidValue(zs, fs[i], d[fs[i].name])
  }

  ghost predicate ValidValue(zs: Zeros, f: FieldSpec, x: Value)
    decreases f, 0
  {
    match x
    case VStr(s) => f.typ == TString ==> StringAllowed(f, s)
    case VInt(i) => f.typ == TInt ==> IntAllowed(f, i)
    case VUint(n) => f.typ == TUint ==> UintAllowed(f, n)
    case VStruct(fields) => Valid(zs, f.fields, fields)
    case VPtr(_, target) => Valid(zs, f.fields, target)
    case _ => true
  }

  lemma {:induction false} ZeroIsValid(zs: Zeros, fs: seq<FieldSpec>, z: Fields)
    requires ZeroFields(zs, fs, z)
    ensures Valid(zs, fs, z)
    decreases fs
  {
    forall i | 0 <= i < |fs| ensures ValidValue(zs, fs[i], z[fs[i].name]) {
      var x := z[fs[i].name];
      assert ZeroValue(zs, fs[i], x);
      if x.VStruct? {
        ZeroIsValid(zs, fs[i].fields, x.fields);
      }
    }
  }

  /** Whatever the source holds and whether or not the merge stops with an
      error, a valid destination stays valid, at every depth and in the
      sub-structs the merge allocates. */
  lemma {:induction false} KeepsValidity(zs: Zeros, fs: seq<FieldSpec>, d: Fields, s: Fields, mt: MergeType)
    requires SpecOk(zs, fs) && Shaped(zs, fs, d) && Shaped(zs, fs, s)
    requires Valid(zs, fs, d)
    ensures Valid(zs, fs, MergeFields(zs, fs, d, s, mt).dst)
    decreases fs
  {
    AllSettled(zs, fs, d, s, mt);
    var after := MergeFields(zs, fs, d, s, mt).dst;
    forall i | 0 <= i < |fs| ensures ValidValue(zs, fs[i], after[fs[i].name]) {
      assert Settled(zs, fs[i], d, s, mt, after);
      ValueKeepsValidity(zs, fs[i], d[fs[i].name], s[fs[i].name], mt);
    }
  }

  lemma {:induction false} ValueKeepsValidity(zs: Zeros, f: FieldSpec, x: Value, v: Value, mt: MergeType)
    requires FieldOk(zs, f)
    requires ShapedValue(zs, f, x) && ShapedValue(zs, f, v) && ValidValue(zs, f, x)
    ensures ValidValue(zs, f, MergeValue(zs, f, x, v, mt).val)
    decreases f, 0
  {
    if f.typ == TStruct {
      assert ShapedStruct(zs, f, x) && ShapedStruct(zs, f, v);
      if x.VNil? {
        ZeroIsValid(zs, f.fields, Deref(zs, x));
      }
      if !v.VNil? {
        KeepsValidity(zs, f.fields, Deref(zs, x), Deref(zs, v), mt);
      }
    }
  }

  // ----------------------------------------------------------- idempotence

  /** Somewhere the merge fills a zero number from its default although the
      option asks for the field: a second merge will find the field filled and
      the source still zero, and refuse. */
  ghost predicate FillsRequired(zs: Zeros, fs: seq<FieldSpec>, d: Fields, s: Fields, mt: MergeType)
    requires Shaped(zs, fs, d) && Shaped(zs, fs, s)
    decreases fs, 0
  {
    exists i :: 0 <= i < |fs| && FillsRequiredValue(zs, fs[i], d[fs[i].name], s[fs[i].name], mt)
  }

  ghost predicate FillsRequiredValue(zs: Zeros, f: FieldSpec, x: Value, v: Value, mt: MergeType)
    requires ShapedValue(zs, f, x) && ShapedValue(zs, f, v)
    decreases f, 0
  {
    match f.typ
    case TInt => x.i == 0 && v.i == 0 && DefaultOf(f) != 0 && AskedFor(f, mt)
    case TUint => x.n == 0 && v.n == 0 && DefaultOf(f) != 0 && AskedFor(f, mt)
    case TStruct =>
      assert ShapedStruct(zs, f, x) && ShapedStruct(zs, f, v);
      !v.VNil? && FillsRequired(zs, f.fields, Deref(zs, x), Deref(zs, v), mt)
    case _ => false
  }

  /** After a successful merge, merging the same source again writes nothing
      new, under any option and error or not. */
  lemma {:induction false} SecondMergeWritesNothing(zs: Zeros, fs: seq<FieldSpec>, d: Fields, s: Fields, mt: MergeType)
    requires SpecOk(zs, fs) && Shaped(zs, fs, d) && Shaped(zs, fs, s)
    requires MergeFields(zs, fs, d, s, mt).err == NoErr
    ensures MergeFields(zs, fs, MergeFields(zs, fs, d, s, mt).dst, s, mt).dst == MergeFields(zs, fs, d, s, mt).dst
    decreases fs
  {
    Pointwise(zs, fs, d, s, mt);
    var once := MergeFields(zs, fs, d, s, mt).dst;
    AllSettled(zs, fs, once, s, mt);
    Frame(zs, fs, once, s, mt);
    var twice := MergeFields(zs, fs, once, s, mt).dst;
    forall i | 0 <= i < |fs| ensures twice[fs[i].name] == once[fs[i].name] {
      assert Succeeds(zs, fs[i], d, s, mt, once);
      SecondValueWritesNothing(zs, fs[i], d[fs[i].name], s[fs[i].name], mt);
      assert Settled(zs, fs[i], once, s, mt, twice);
    }
    forall k | k in once ensures twice[k] == once[k] {
      if HasName(fs, k) {
        var i :| 0 <= i < |fs| && fs[i].name == k;
      }
    }
  }

  lemma {:induction false} SecondValueWritesNothing(zs: Zeros, f: FieldSpec, x: Value, v: Value, mt: MergeType)
    requires FieldOk(zs, f) && ShapedValue(zs, f, x) && ShapedValue(zs, f, v)
    requires MergeValue(zs, f, x, v, mt).err == NoErr
    ensures MergeValue(zs, f, MergeValue(zs, f, x, v, mt).val, v, mt).val == MergeValue(zs, f, x, v, mt).val
    decreases f, 0
  {
    if f.typ == TStruct && !v.VNil? {
      SecondMergeWritesNothing(zs, f.fields, Deref(zs, x), Deref(zs, v), mt);
    }
  }

  /** After a successful merge, merging the same source again succeeds exactly
      when the first merge filled no required field from its default. */
  lemma {:induction false} SecondMergeSucceedsIff(zs: Zeros, fs: seq<FieldSpec>, d: Fields, s: Fields, mt: MergeType)
    requires SpecOk(zs, fs) && Shaped(zs, fs, d) && Shaped(zs, fs, s)
    requires MergeFields(zs, fs, d, s, mt).err == NoErr
    ensures MergeFields(zs, fs, MergeFields(zs, fs, d, s, mt).dst, s, mt).err == NoErr
       <==> !FillsRequired(zs, fs, d, s, mt)
    decreases fs
  {
    Pointwise(zs, fs, d, s, mt);
    var once := MergeFields(zs, fs, d, s, mt).dst;
    Pointwise(zs, fs, once, s, mt);
    forall i | 0 <= i < |fs|
      ensures FieldResult(zs, fs[i], once, s, mt).err == NoErr <==>
              !FillsRequiredValue(zs, fs[i], d[fs[i].name], s[fs[i].name], mt)
    {
      assert Succeeds(zs, fs[i], d, s, mt, once);
      SecondValueSucceedsIff(zs, fs[i], d[fs[i].name], s[fs[i].name], mt);
    }
    var twice := MergeFields(zs, fs, once, s, mt);
    if twice.err == NoErr {
      forall i | 0 <= i < |fs| ensures !FillsRequiredValue(zs, fs[i], d[fs[i].name], s[fs[i].name], mt) {
        assert Succeeds(zs, fs[i], once, s, mt, twice.dst);
      }
    }
  }

  lemma {:induction false} SecondValueSucceedsIff(zs: Zeros, f: FieldSpec, x: Value, v: Value, mt: MergeType)
    requires FieldOk(zs, f) && ShapedValue(zs, f, x) && ShapedValue(zs, f, v)
    requires MergeValue(zs, f, x, v, mt).err == NoErr
    ensures MergeValue(zs, f, MergeValue(zs, f, x, v, mt).val, v, mt).err == NoErr
       <==> !FillsRequiredValue(zs, f, x, v, mt)
    decreases f, 0
  {
    if f.typ == TStruct && !v.VNil? {
      SecondMergeSucceedsIff(zs, f.fields, Deref(zs, x), Deref(zs, v), mt);
    }
  }

  lemma {:induction false} NothingRequired(zs: Zeros, fs: seq<FieldSpec>, d: Fields, s: Fields, mt: MergeType)
    requires NoOption(mt) && Shaped(zs, fs, d) && Shaped(zs, fs, s)
    ensures !FillsRequired(zs, fs, d, s, mt)
    decreases fs
  {
    forall i | 0 <= i < |fs| ensures !FillsRequiredValue(zs, fs[i], d[fs[i].name], s[fs[i].name], mt) {
      var f, x, v := fs[i], d[fs[i].name], s[fs[i].name];
      if f.typ == TStruct && !v.VNil? {
        assert ShapedStruct(zs, f, x) && ShapedStruct(zs, f, v);
        NothingRequired(zs, f.fields, Deref(zs, x), Deref(zs, v), mt);
      }
    }
  }

  /** Without an option the merge is idempotent. */
  lemma Idempotent(zs: Zeros, fs: seq<FieldSpec>, d: Fields, s: Fields, mt: MergeType)
    requires NoOption(mt) && SpecOk(zs, fs) && Shaped(zs, fs, d) && Shaped(zs, fs, s)
    requires MergeFields(zs, fs, d, s, mt).err == NoErr
    ensures var once := MergeFields(zs, fs, d, s, mt).dst;
      MergeFields(zs, fs, once, s, mt).dst == once && MergeFields(zs, fs, once, s, mt).err == NoErr
  {
    SecondMergeWritesNothing(zs, fs, d, s, mt);
    SecondMergeSucceedsIff(zs, fs, d, s, mt);
    NothingRequired(zs, fs, d, s, mt);
  }
}
