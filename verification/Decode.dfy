/** Building a row from the values of a request: encoding them as JSON and
    decoding the text into a fresh struct, field by exact tag. */
module Decode {
  import opened GoTypes
  import opened Merge
  import opened MergeLaws

  /** A value without a kind anywhere in it cannot be encoded. */
  predicate HasKindless(pb: Pb)
    decreases pb
  {
    match pb
    case Kindless => true
    case PList(items) => exists i :: 0 <= i < |items| && HasKindless(items[i])
    case PStruct(entries) => exists k :: k in entries && HasKindless(entries[k])
    case _ => false
  }

  function DecodeScalar(sub: Sub, pb: Pb): Option<Value> {
    match sub
    case SBool => if pb.PBool? then Some(VBool(pb.b)) else if pb.Null? then Some(VBool(false)) else None
    case SInt =>
      if pb.PNumber? && MIN_INT64 <= pb.n <= MAX_INT64 then Some(VInt(pb.n))
      else if pb.Null? then Some(VInt(0)) else None
    case SUint =>
      if pb.PNumber? && 0 <= pb.n <= MAX_UINT64 then Some(VUint(pb.n))
      else if pb.Null? then Some(VUint(0)) else None
    case SString => if pb.PString? then Some(VStr(pb.s)) else if pb.Null? then Some(VStr("")) else None
    case _ => None
  }

  /** The zero value of an element that is a struct or a pointer to one. Fields
      that the spec does not know are left out: the merge refuses slices of
      structs, so nothing of their elements is seen. */
  function ZeroElement(f: FieldSpec): (x: Value)
    ensures IsStructLike(x)
  {
    if f.ref.Some? then VNil(f.ref.value) else VStruct(SpecZero(f.fields))
  }

  /** A struct decoded into x, the zero value of its variable. */
  function DecodeStruct(zs: Zeros, f: FieldSpec, x: Value, pb: Pb): Option<Value>
    requires IsStructLike(x)
    decreases f, 1, 0
  {
    match pb
    case Null => Some(x)
    case PStruct(entries) =>
      var fields := DecodeFields(zs, f.fields, Deref(zs, x), entries);
      if fields.None? then None else Some(Rewrap(x, fields.value))
    case _ => None
  }

  function DecodeItems(zs: Zeros, f: FieldSpec, items: seq<Pb>): Option<seq<Value>>
    requires f.typ.TArray?
    decreases f, 2, |items|
  {
    if items == [] then Some([])
    else
      var front := DecodeItems(zs, f, items[..|items| - 1]);
      var last := items[|items| - 1];
      var item :=
        if f.typ.sub != SStruct then DecodeScalar(f.typ.sub, last)
        else DecodeStruct(zs, f, ZeroElement(f), last);
      if front.None? || item.None? then None else Some(front.value + [item.value])
  }

  /** Entries of a string-keyed map: scalars, pointers to structs, or pointers
      to protobuf values, which take anything. */
  function DecodeEntry(zs: Zeros, f: FieldSpec, pb: Pb): Option<Value>
    requires f.typ.TMap?
    decreases f, 2, 0
  {
    match f.typ.sub
    case SStruct => if f.ref.Some? then DecodeStruct(zs, f, VNil(f.ref.value), pb) else None
    case SAny =>
      if f.ref.None? then None
      else if pb.Null? then Some(VNil(f.ref.value))
      else Some(VPtr(f.ref.value, map["Kind" := VOther(pb)]))
    case sub => DecodeScalar(sub, pb)
  }

  /** One field, decoded into its zero value x. */
  function DecodeValue(zs: Zeros, f: FieldSpec, x: Value, pb: Pb): Option<Value>
    decreases f, 3, 0
  {
    if pb.Null? then Some(x)
    else
      match f.typ
      case TBool => DecodeScalar(SBool, pb)
      case TInt => DecodeScalar(SInt, pb)
      case TUint => DecodeScalar(SUint, pb)
      case TString => DecodeScalar(SString, pb)
      case TBytes => if pb.PString? then Some(x) else None
      case TArray(_) =>
        if !pb.PList? then None
        else
          var items := DecodeItems(zs, f, pb.items);
          if items.None? then None else Some(VSlice(items.value))
      case TMap(KString, _) =>
        if !pb.PStruct? || exists k :: k in pb.entries && DecodeEntry(zs, f, pb.entries[k]).None? then None
        else Some(VMap(map k | k in pb.entries :: DecodeEntry(zs, f, pb.entries[k]).value))
      case TMap(_, _) => if pb == PStruct(map[]) then Some(x) else None
      case TStruct => if IsStructLike(x) then DecodeStruct(zs, f, x, pb) else None
  }

  /** Unknown tags are ignored. */
  function DecodeFields(zs: Zeros, fs: seq<FieldSpec>, x: Fields, data: map<string, Pb>): Option<Fields>
    decreases fs, 0, 0
  {
    if fs == [] then Some(x)
    else
      var f := fs[0];
      if f.tagName !in data || f.name !in x then DecodeFields(zs, fs[1..], x, data)
      else
        var v := DecodeValue(zs, f, x[f.name], data[f.tagName]);
        if v.None? then None else DecodeFields(zs, fs[1..], x[f.name := v.value], data)
  }

  function DecodeRow(zs: Zeros, fs: seq<FieldSpec>, zero: Fields, data: map<string, Pb>): Option<Fields> {
    if exists t :: t in data && HasKindless(data[t]) then None else DecodeFields(zs, fs, zero, data)
  }

  /** What a request says for a string field. */
  function StringOf(pb: Pb): string {
    if pb.PString? then pb.s else ""
  }

  // -------------------------------------------------------------------- facts

  lemma {:induction false} DecodeFrame(zs: Zeros, fs: seq<FieldSpec>, x: Fields, data: map<string, Pb>)
    ensures DecodeFields(zs, fs, x, data).Some? ==>
      var y := DecodeFields(zs, fs, x, data).value;
      y.Keys == x.Keys && forall k :: k in x && !HasName(fs, k) ==> y[k] == x[k]
    decreases |fs|
  {
    if fs != [] {
      var f := fs[0];
      TailNames(fs);
      var y := if f.tagName !in data || f.name !in x then x
               else
                 var v := DecodeValue(zs, f, x[f.name], data[f.tagName]);
                 if v.None? then x else x[f.name := v.value];
      DecodeFrame(zs, fs[1..], y, data);
      forall k | k in x && !HasName(fs, k) ensures k != f.name {}
    }
  }

  /** A decoded row has the request's string, or "", in every string field. */
  lemma {:induction false} DecodedString(zs: Zeros, fs: seq<FieldSpec>, x: Fields, data: map<string, Pb>, i: nat)
    requires Distinct(fs) && i < |fs| && fs[i].typ == TString && fs[i].name in x && x[fs[i].name] == VStr("")
    requires DecodeFields(zs, fs, x, data).Some?
    ensures var y := DecodeFields(zs, fs, x, data).value;
      && fs[i].name in y
      && y[fs[i].name] == VStr(if fs[i].tagName in data then StringOf(data[fs[i].tagName]) else "")
    decreases |fs|
  {
    var f := fs[0];
    var y := if f.tagName !in data || f.name !in x then x
             else x[f.name := DecodeValue(zs, f, x[f.name], data[f.tagName]).value];
    if i == 0 {
      HeadOfDistinct(fs);
      DecodeFrame(zs, fs[1..], y, data);
    } else {
      assert fs[1..][i - 1] == fs[i];
      DecodedString(zs, fs[1..], y, data, i - 1);
    }
  }

  /** A decoded row has the declared shape. */
  lemma {:induction false} DecodedIsShaped(zs: Zeros, fs: seq<FieldSpec>, x: Fields, data: map<string, Pb>)
    requires SpecOk(zs, fs)
    requires forall i :: 0 <= i < |fs| ==> fs[i].name in x && ShapedValue(zs, fs[i], x[fs[i].name])
    requires DecodeFields(zs, fs, x, data).Some?
    ensures Shaped(zs, fs, DecodeFields(zs, fs, x, data).value)
    decreases fs, 0, 0
  {
    if fs != [] {
      var f := fs[0];
      var y := if f.tagName !in data || f.name !in x then x
               else x[f.name := DecodeValue(zs, f, x[f.name], data[f.tagName]).value];
      if f.tagName in data {
        DecodedValueIsShaped(zs, f, x[f.name], data[f.tagName]);
      }
      HeadOfDistinct(fs);
      forall i | 0 <= i < |fs[1..]| ensures fs[1..][i].name in y && ShapedValue(zs, fs[1..][i], y[fs[1..][i].name]) {
        assert fs[1..][i] == fs[i + 1];
      }
      assert Distinct(fs[1..]) && ZerosFit(zs, fs[1..]) && LimitsOk(fs[1..]);
      DecodedIsShaped(zs, fs[1..], y, data);
      DecodeFrame(zs, fs[1..], y, data);
      var z := DecodeFields(zs, fs, x, data).value;
      forall i | 0 <= i < |fs| ensures fs[i].name in z && ShapedValue(zs, fs[i], z[fs[i].name]) {
        if i > 0 {
          assert fs[i] == fs[1..][i - 1];
        }
      }
    }
  }

  lemma {:induction false} DecodedStructIsShaped(zs: Zeros, f: FieldSpec, x: Value, pb: Pb)
    requires FieldOk(zs, f) && ShapedStruct(zs, f, x) && DecodeStruct(zs, f, x, pb).Some?
    ensures ShapedStruct(zs, f, DecodeStruct(zs, f, x, pb).value)
    decreases f, 1, 0
  {
    if pb.PStruct? {
      DecodedIsShaped(zs, f.fields, Deref(zs, x), pb.entries);
    }
  }

  lemma {:induction false} ElementIsShaped(zs: Zeros, f: FieldSpec)
    requires FieldOk(zs, f)
    ensures ShapedStruct(zs, f, ZeroElement(f))
  {
    SpecZeroIsZero(zs, f.fields);
    ZeroIsShaped(zs, f.fields, Deref(zs, ZeroElement(f)));
  }

  lemma {:induction false} DecodedItemsAreShaped(zs: Zeros, f: FieldSpec, items: seq<Pb>)
    requires FieldOk(zs, f) && f.typ.TArray? && DecodeItems(zs, f, items).Some?
    ensures ShapedValue(zs, f, VSlice(DecodeItems(zs, f, items).value))
    decreases f, 2, |items|
  {
    if items != [] {
      DecodedItemsAreShaped(zs, f, items[..|items| - 1]);
      if f.typ.sub == SStruct {
        ElementIsShaped(zs, f);
        DecodedStructIsShaped(zs, f, ZeroElement(f), items[|items| - 1]);
      }
    }
  }

  lemma {:induction false} DecodedEntryIsShaped(zs: Zeros, f: FieldSpec, pb: Pb)
    requires FieldOk(zs, f) && f.typ.TMap? && DecodeEntry(zs, f, pb).Some?
    ensures ShapedEntry(zs, f, DecodeEntry(zs, f, pb).value)
    decreases f, 2, 0
  {
    if f.typ.sub == SStruct {
      ElementIsShaped(zs, f);
      DecodedStructIsShaped(zs, f, VNil(f.ref.value), pb);
    }
  }

  lemma {:induction false} DecodedValueIsShaped(zs: Zeros, f: FieldSpec, x: Value, pb: Pb)
    requires FieldOk(zs, f) && ShapedValue(zs, f, x) && DecodeValue(zs, f, x, pb).Some?
    ensures ShapedValue(zs, f, DecodeValue(zs, f, x, pb).value)
    decreases f, 3, 0
  {
    if !pb.Null? {
      match f.typ
      case TArray(_) => DecodedItemsAreShaped(zs, f, pb.items);
      case TMap(KString, _) =>
        forall k | k in pb.entries ensures ShapedEntry(zs, f, DecodeEntry(zs, f, pb.entries[k]).value) {
          DecodedEntryIsShaped(zs, f, pb.entries[k]);
        }
      case TStruct =>
        assert ShapedStruct(zs, f, x);
        DecodedStructIsShaped(zs, f, x, pb);
      case _ =>
    }
  }
}
