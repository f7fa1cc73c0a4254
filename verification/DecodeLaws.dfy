/** What decoding a request yields: which values fit a spec, and what the decoded
    struct then holds, field by field and without the decoder. */
module DecodeLaws {
  import opened GoTypes
  import opened Merge
  import opened MergeLaws
  import opened Decode

  // ------------------------------------------------------------- values that fit

  predicate ScalarFits(sub: Sub, pb: Pb) {
    pb.Null? ||
    match sub
    case SBool => pb.PBool?
    case SInt => pb.PNumber? && -0x8000_0000_0000_0000 <= pb.n <= 0x7fff_ffff_ffff_ffff
    case SUint => pb.PNumber? && 0 <= pb.n <= 0xffff_ffff_ffff_ffff
    case SString => pb.PString?
    case _ => false
  }

  ghost predicate Fits(f: FieldSpec, pb: Pb)
    decreases f, 1
  {
    pb.Null? ||
    match f.typ
    case TBool => ScalarFits(SBool, pb)
    case TInt => ScalarFits(SInt, pb)
    case TUint => ScalarFits(SUint, pb)
    case TString => ScalarFits(SString, pb)
    case TBytes => pb.PString?
    case TArray(sub) => pb.PList? && forall i :: 0 <= i < |pb.items| ==> ItemFits(f, sub, pb.items[i])
    case TMap(KString, sub) => pb.PStruct? && forall k :: k in pb.entries ==> EntryFits(f, sub, pb.entries[k])
    case TMap(_, _) => pb == PStruct(map[])
    case TStruct => StructFits(f, pb)
  }

  ghost predicate ItemFits(f: FieldSpec, sub: Sub, pb: Pb)
    decreases f, 0, 1
  {
    if sub == SStruct then StructFits(f, pb) else !(sub == SAny) && ScalarFits(sub, pb)
  }

  ghost predicate EntryFits(f: FieldSpec, sub: Sub, pb: Pb)
    decreases f, 0, 1
  {
    match sub
    case SStruct => StructFits(f, pb)
    case SAny => true
    case _ => ScalarFits(sub, pb)
  }

  ghost predicate StructFits(f: FieldSpec, pb: Pb)
    decreases f, 0, 0
  {
    pb.Null? || (pb.PStruct? && FitAll(f.fields, pb.entries))
  }

  /** Every value under a known tag fits its field. */
  ghost predicate FitAll(fs: seq<FieldSpec>, data: map<string, Pb>)
    decreases fs
  {
    forall i :: 0 <= i < |fs| && fs[i].tagName in data ==> Fits(fs[i], data[fs[i].tagName])
  }

  // ----------------------------------------------------------- what they stand for

  /** The scalar that a value stands for; null and nothing stand for the zero. */
  predicate ScalarMeans(sub: Sub, pb: Pb, y: Value) {
    match sub
    case SBool => y == VBool(pb.PBool? && pb.b)
    case SInt => y == VInt(if pb.PNumber? then pb.n else 0)
    case SUint => y == VUint(if pb.PNumber? && pb.n >= 0 then pb.n else 0)
    case SString => y == VStr(if pb.PString? then pb.s else "")
    case _ => false
  }

  /** y is what pb says for the field, which held its zero value x. */
  ghost predicate Means(zs: Zeros, f: FieldSpec, x: Value, pb: Pb, y: Value)
    decreases f, 1
  {
    if pb.Null? then y == x
    else
      match f.typ
      case TBool => ScalarMeans(SBool, pb, y)
      case TInt => ScalarMeans(SInt, pb, y)
      case TUint => ScalarMeans(SUint, pb, y)
      case TString => ScalarMeans(SString, pb, y)
      case TBytes => y == x
      case TArray(sub) => pb.PList? && y.VSlice? && |y.items| == |pb.items| &&
        forall i :: 0 <= i < |y.items| ==> ItemMeans(zs, f, sub, pb.items[i], y.items[i])
      case TMap(KString, sub) => pb.PStruct? && y.VMap? && y.entries.Keys == pb.entries.Keys &&
        forall k :: k in y.entries ==> EntryMeans(zs, f, sub, pb.entries[k], y.entries[k])
      case TMap(_, _) => y == x
      case TStruct => IsStructLike(x) && StructMeans(zs, f, x, pb, y)
  }

  ghost predicate ItemMeans(zs: Zeros, f: FieldSpec, sub: Sub, pb: Pb, y: Value)
    decreases f, 0, 1
  {
    if sub == SStruct then StructMeans(zs, f, ZeroElement(f), pb, y) else ScalarMeans(sub, pb, y)
  }

  ghost predicate EntryMeans(zs: Zeros, f: FieldSpec, sub: Sub, pb: Pb, y: Value)
    decreases f, 0, 1
  {
    match sub
    case SStruct => f.ref.Some? && StructMeans(zs, f, VNil(f.ref.value), pb, y)
    case SAny => f.ref.Some? && y == if pb.Null? then VNil(f.ref.value) else VPtr(f.ref.value, map["Kind" := VOther(pb)])
    case _ => ScalarMeans(sub, pb, y)
  }

  /** A struct stays what it is, and a nil pointer is allocated. */
  ghost predicate StructMeans(zs: Zeros, f: FieldSpec, x: Value, pb: Pb, y: Value)
    requires IsStructLike(x)
    decreases f, 0, 0
  {
    if pb.Null? then y == x
    else
      && pb.PStruct?
      && (if x.VStruct? then y.VStruct? else y.VPtr? && y.rt == x.rt)
      && FieldsMean(zs, f.fields, Deref(zs, x), pb.entries, Deref(zs, y))
  }

  /** Each field of y is what the data say under its tag, or as it was in x. */
  ghost predicate FieldsMean(zs: Zeros, fs: seq<FieldSpec>, x: Fields, data: map<string, Pb>, y: Fields)
    decreases fs
  {
    && y.Keys == x.Keys
    && (forall k :: k in x && !HasName(fs, k) ==> y[k] == x[k])
    && (forall i :: 0 <= i < |fs| && fs[i].name in x ==>
          if fs[i].tagName in data then Means(zs, fs[i], x[fs[i].name], data[fs[i].tagName], y[fs[i].name])
          else y[fs[i].name] == x[fs[i].name])
  }

  // ------------------------------------------------------------------------ proofs

  lemma ScalarDecodes(sub: Sub, pb: Pb)
    ensures DecodeScalar(sub, pb).Some? <==> sub != SStruct && sub != SAny && ScalarFits(sub, pb)
    ensures DecodeScalar(sub, pb).Some? ==> ScalarMeans(sub, pb, DecodeScalar(sub, pb).value)
  {
  }

  lemma {:induction false} StructDecodes(zs: Zeros, f: FieldSpec, x: Value, pb: Pb)
    requires FieldOk(zs, f) && ShapedStruct(zs, f, x)
    ensures DecodeStruct(zs, f, x, pb).Some? <==> StructFits(f, pb)
    ensures DecodeStruct(zs, f, x, pb).Some? ==> StructMeans(zs, f, x, pb, DecodeStruct(zs, f, x, pb).value)
    decreases f, 1, 0
  {
    if pb.PStruct? {
      FieldsDecode(zs, f.fields, Deref(zs, x), pb.entries);
    }
  }

  lemma {:induction false} ItemDecodes(zs: Zeros, f: FieldSpec, pb: Pb)
    requires FieldOk(zs, f) && f.typ.TArray?
    ensures var y := if f.typ.sub == SStruct then DecodeStruct(zs, f, ZeroElement(f), pb) else DecodeScalar(f.typ.sub, pb);
      (y.Some? <==> ItemFits(f, f.typ.sub, pb)) && (y.Some? ==> ItemMeans(zs, f, f.typ.sub, pb, y.value))
    decreases f, 1, 1
  {
    if f.typ.sub == SStruct {
      ElementIsShaped(zs, f);
      StructDecodes(zs, f, ZeroElement(f), pb);
    } else {
      ScalarDecodes(f.typ.sub, pb);
    }
  }

  lemma {:induction false} ItemsDecode(zs: Zeros, f: FieldSpec, items: seq<Pb>)
    requires FieldOk(zs, f) && f.typ.TArray?
    ensures DecodeItems(zs, f, items).Some? <==> forall i :: 0 <= i < |items| ==> ItemFits(f, f.typ.sub, items[i])
    ensures DecodeItems(zs, f, items).Some? ==> var ys := DecodeItems(zs, f, items).value;
      |ys| == |items| && forall i :: 0 <= i < |items| ==> ItemMeans(zs, f, f.typ.sub, items[i], ys[i])
    decreases f, 2, |items|
  {
    if items != [] {
      var n := |items| - 1;
      ItemsDecode(zs, f, items[..n]);
      ItemDecodes(zs, f, items[n]);
      assert forall i :: 0 <= i < n ==> items[..n][i] == items[i];
    }
  }

  lemma {:induction false} EntryDecodes(zs: Zeros, f: FieldSpec, pb: Pb)
    requires FieldOk(zs, f) && f.typ.TMap?
    ensures DecodeEntry(zs, f, pb).Some? <==> EntryFits(f, f.typ.sub, pb)
    ensures DecodeEntry(zs, f, pb).Some? ==> EntryMeans(zs, f, f.typ.sub, pb, DecodeEntry(zs, f, pb).value)
    decreases f, 2, 0
  {
    match f.typ.sub
    case SStruct =>
      ElementIsShaped(zs, f);
      StructDecodes(zs, f, VNil(f.ref.value), pb);
    case SAny =>
    case sub => ScalarDecodes(sub, pb);
  }

  lemma {:induction false} ValueDecodes(zs: Zeros, f: FieldSpec, x: Value, pb: Pb)
    requires FieldOk(zs, f) && ShapedValue(zs, f, x)
    ensures DecodeValue(zs, f, x, pb).Some? <==> Fits(f, pb)
    ensures DecodeValue(zs, f, x, pb).Some? ==> Means(zs, f, x, pb, DecodeValue(zs, f, x, pb).value)
    decreases f, 3, 0
  {
    if !pb.Null? {
      match f.typ
      case TArray(_) =>
        if pb.PList? {
          ItemsDecode(zs, f, pb.items);
        }
      case TMap(KString, _) =>
        if pb.PStruct? {
          forall k | k in pb.entries
            ensures DecodeEntry(zs, f, pb.entries[k]).Some? <==> EntryFits(f, f.typ.sub, pb.entries[k])
            ensures DecodeEntry(zs, f, pb.entries[k]).Some? ==>
              EntryMeans(zs, f, f.typ.sub, pb.entries[k], DecodeEntry(zs, f, pb.entries[k]).value)
          {
            EntryDecodes(zs, f, pb.entries[k]);
          }
        }
      case TStruct =>
        assert ShapedStruct(zs, f, x);
        StructDecodes(zs, f, x, pb);
      case _ =>
    }
  }

  /** Decoding succeeds exactly if every value under a known tag fits, and then
      yields what the values say. */
  lemma {:induction false} FieldsDecode(zs: Zeros, fs: seq<FieldSpec>, x: Fields, data: map<string, Pb>)
    requires SpecOk(zs, fs) && Shaped(zs, fs, x)
    ensures DecodeFields(zs, fs, x, data).Some? <==> FitAll(fs, data)
    ensures DecodeFields(zs, fs, x, data).Some? ==> FieldsMean(zs, fs, x, data, DecodeFields(zs, fs, x, data).value)
    decreases fs, 0, 0
  {
    if fs != [] {
      HeadDecodes(zs, fs, x, data);
      var y := AfterHead(zs, fs[0], x, data);
      if y.Some? {
        HeadOfDistinct(fs);
        assert SpecOk(zs, fs[1..]) && Shaped(zs, fs[1..], y.value);
        FieldsDecode(zs, fs[1..], y.value, data);
        if DecodeFields(zs, fs[1..], y.value, data).Some? {
          ConsMeans(zs, fs, x, data, y.value, DecodeFields(zs, fs[1..], y.value, data).value);
        }
      }
      FitHead(fs, data);
    }
  }

  /** The struct after its first field was decoded. */
  function AfterHead(zs: Zeros, f: FieldSpec, x: Fields, data: map<string, Pb>): Option<Fields>
    requires f.name in x
  {
    if f.tagName !in data then Some(x)
    else
      match DecodeValue(zs, f, x[f.name], data[f.tagName])
      case None => None
      case Some(v) => Some(x[f.name := v])
  }

  lemma {:induction false} HeadDecodes(zs: Zeros, fs: seq<FieldSpec>, x: Fields, data: map<string, Pb>)
    requires SpecOk(zs, fs) && Shaped(zs, fs, x) && fs != []
    ensures var f := fs[0]; var y := AfterHead(zs, f, x, data);
      && DecodeFields(zs, fs, x, data) == (if y.None? then None else DecodeFields(zs, fs[1..], y.value, data))
      && (y.Some? <==> f.tagName in data ==> Fits(f, data[f.tagName]))
      && (y.Some? ==> y.value == x[f.name := y.value[f.name]])
      && (y.Some? ==> if f.tagName in data then Means(zs, f, x[f.name], data[f.tagName], y.value[f.name])
                      else y.value[f.name] == x[f.name])
    decreases fs[0], 4, 0
  {
    var f := fs[0];
    assert x[f.name := x[f.name]] == x;
    if f.tagName in data {
      ValueDecodes(zs, f, x[f.name], data[f.tagName]);
    }
  }

  lemma FitHead(fs: seq<FieldSpec>, data: map<string, Pb>)
    requires fs != []
    ensures FitAll(fs, data) <==> (fs[0].tagName in data ==> Fits(fs[0], data[fs[0].tagName])) && FitAll(fs[1..], data)
  {
    assert forall i :: 0 <= i < |fs[1..]| ==> fs[1..][i] == fs[i + 1];
    forall i | 0 < i < |fs| && FitAll(fs[1..], data) && fs[i].tagName in data ensures Fits(fs[i], data[fs[i].tagName]) {
      assert fs[1..][i - 1] == fs[i];
    }
  }

  lemma ConsMeans(zs: Zeros, fs: seq<FieldSpec>, x: Fields, data: map<string, Pb>, y: Fields, z: Fields)
    requires fs != [] && DistinctNames(fs) && HasFields(fs, x) && y.Keys == x.Keys && y == x[fs[0].name := y[fs[0].name]]
    requires if fs[0].tagName in data then Means(zs, fs[0], x[fs[0].name], data[fs[0].tagName], y[fs[0].name])
             else y[fs[0].name] == x[fs[0].name]
    requires FieldsMean(zs, fs[1..], y, data, z)
    ensures FieldsMean(zs, fs, x, data, z)
  {
    HeadOfDistinct(fs);
    TailNames(fs);
    forall i | 0 < i < |fs|
      ensures if fs[i].tagName in data then Means(zs, fs[i], x[fs[i].name], data[fs[i].tagName], z[fs[i].name])
              else z[fs[i].name] == x[fs[i].name]
    {
      assert fs[1..][i - 1] == fs[i];
    }
  }

  // -------------------------------------------------------- values without a kind

  /** A step into a list or into a struct. */
  datatype Into = At(i: nat) | Under(key: string)

  function Inside(pb: Pb, path: seq<Into>): Option<Pb>
    decreases |path|
  {
    if path == [] then Some(pb)
    else
      match path[0]
      case At(i) => if pb.PList? && i < |pb.items| then Inside(pb.items[i], path[1..]) else None
      case Under(key) => if pb.PStruct? && key in pb.entries then Inside(pb.entries[key], path[1..]) else None
  }

  lemma InsideStep(pb: Pb, step: Into, path: seq<Into>)
    ensures Inside(pb, [step] + path) ==
      match step {
        case At(i) => if pb.PList? && i < |pb.items| then Inside(pb.items[i], path) else None
        case Under(key) => if pb.PStruct? && key in pb.entries then Inside(pb.entries[key], path) else None
      }
  {
    assert ([step] + path)[1..] == path;
  }

  lemma {:induction false} KindlessInside(pb: Pb) returns (path: seq<Into>)
    requires HasKindless(pb)
    ensures Inside(pb, path) == Some(Kindless)
    decreases pb
  {
    match pb
    case Kindless => path := [];
    case PList(items) =>
      var i :| 0 <= i < |items| && HasKindless(items[i]);
      path := KindlessInside(items[i]);
      InsideStep(pb, At(i), path);
      path := [At(i)] + path;
    case PStruct(entries) =>
      var k :| k in entries && HasKindless(entries[k]);
      path := KindlessInside(entries[k]);
      InsideStep(pb, Under(k), path);
      path := [Under(k)] + path;
  }

  lemma {:induction false} InsideKindless(pb: Pb, path: seq<Into>)
    requires Inside(pb, path) == Some(Kindless)
    ensures HasKindless(pb)
    decreases |path|
  {
    if path != [] {
      match path[0]
      case At(i) => InsideKindless(pb.items[i], path[1..]);
      case Under(key) => InsideKindless(pb.entries[key], path[1..]);
    }
  }

  /** A value lacks a kind exactly if one without is found somewhere inside. */
  lemma KindlessIff(pb: Pb)
    ensures HasKindless(pb) <==> exists path :: Inside(pb, path) == Some(Kindless)
  {
    if HasKindless(pb) {
      var path := KindlessInside(pb);
    }
    forall path | Inside(pb, path) == Some(Kindless) ensures HasKindless(pb) {
      InsideKindless(pb, path);
    }
  }
}
