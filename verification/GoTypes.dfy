/** Go struct types, field specs derived from them, and run-time values.

    A GoType plays the part of reflect.Type, a FieldSpec is the record the
    parser derives from a struct field, and a Value is what reflection sees in
    a variable of such a type. */
module GoTypes {

  datatype Option<+T> = None | Some(value: T)

  /** Attributes of the `x_attrs` tag that the code asks about. */
  datatype Attr =
    | PrimaryKey
    | UniqueKey
    | CreateRequired
    | UpdateRequired
    | RandHex(length: nat)
    | ObjectId(length: nat)
    | OtherAttr

  /** The three numbers of an `x_value_limits` tag. */
  datatype Limits = Limits(min: int, def: int, max: int)

  datatype GoType =
    | GBool
    | GInt
    | GUint
    | GByte
    | GString
    | GNamed(kind: string)            // a named struct type
    | GAnon(decls: seq<FieldDecl>)    // an anonymous struct type
    | GPtr(elem: GoType)
    | GSlice(elem: GoType)
    | GMap(key: GoType, val: GoType)
    | GOther

  /** One declared struct field: its name, the name part of its json tag (empty
      if there is none), its type and the tags the parser reads. A limit that
      does not parse, or parses to zero, is written 0. */
  datatype FieldDecl = FieldDecl(
    name: string,
    json: string,
    ty: GoType,
    enums: seq<string>,
    limits: Option<Limits>,
    attrs: seq<Attr>)

  /** Element types of slices and values of maps. */
  datatype Sub = SBool | SInt | SUint | SString | SStruct | SAny

  datatype MapKey = KString | KInt | KUint

  datatype FType =
    | TBool
    | TInt
    | TUint
    | TString
    | TBytes
    | TStruct
    | TArray(sub: Sub)
    | TMap(key: MapKey, sub: Sub)

  /** `ref` is what the code reads from the destination's reflect.Type: the
      struct type behind a pointer, None when the struct is held by value. */
  datatype FieldSpec = FieldSpec(
    name: string,
    tagName: string,
    typ: FType,
    kind: string,
    attrs: seq<Attr>,
    enums: seq<string>,
    limits: Option<Limits>,
    fields: seq<FieldSpec>,
    ref: Option<GoType>)

  /** A protobuf Value as carried by requests. A nil pointer behaves as Null. */
  datatype Pb =
    | Kindless
    | Null
    | PBool(b: bool)
    | PNumber(n: int)
    | PString(s: string)
    | PList(items: seq<Pb>)
    | PStruct(entries: map<string, Pb>)

  type Fields = map<string, Value>

  datatype Value =
    | VBool(b: bool)
    | VInt(i: int)
    | VUint(n: nat)
    | VStr(s: string)
    | VSlice(items: seq<Value>)
    | VMap(entries: map<string, Value>)       // string keys
    | VNumMap(numEntries: map<int, Value>)    // integer keys
    | VStruct(fields: Fields)
    | VNil(rt: GoType)                        // a nil pointer to an rt
    | VPtr(rt: GoType, target: Fields)        // a pointer to an rt
    | VOther(content: Pb)                     // any other kind, such as the
                                              // interface in a protobuf Value

  predicate IsStruct(ty: GoType) {
    ty.GNamed? || ty.GAnon?
  }

  /** The zero struct of every named type, which is what reflect.New puts behind
      a pointer to it. */
  type Zeros = map<string, Fields>

  function ZeroOf(zs: Zeros, rt: GoType): Fields
    decreases rt, 0
  {
    match rt
    case GNamed(kind) => if kind in zs then zs[kind] else map[]
    case GAnon(decls) => ZeroDecls(zs, decls)
    case _ => map[]
  }

  function ZeroDecls(zs: Zeros, decls: seq<FieldDecl>): Fields
    decreases decls, 0
  {
    if decls == [] then map[]
    else ZeroDecls(zs, decls[1..])[decls[0].name := ZeroOfType(zs, decls[0].ty)]
  }

  function ZeroOfType(zs: Zeros, ty: GoType): Value
    decreases ty, 1
  {
    match ty
    case GBool => VBool(false)
    case GInt => VInt(0)
    case GUint => VUint(0)
    case GByte => VUint(0)
    case GString => VStr("")
    case GNamed(_) => VStruct(ZeroOf(zs, ty))
    case GAnon(_) => VStruct(ZeroOf(zs, ty))
    case GPtr(elem) => if IsStruct(elem) then VNil(elem) else VOther(Null)
    case GSlice(_) => VSlice([])
    case GMap(GString, _) => VMap(map[])
    case GMap(key, _) => if key == GInt || key == GUint || key == GByte then VNumMap(map[]) else VOther(Null)
    case GOther => VOther(Null)
  }

  predicate IsStructLike(x: Value) {
    x.VStruct? || x.VNil? || x.VPtr?
  }

  /** The struct a value holds or points to; a nil pointer stands for the zero
      struct that an allocation would put behind it. */
  function Deref(zs: Zeros, x: Value): Fields
    requires IsStructLike(x)
  {
    match x
    case VStruct(fields) => fields
    case VPtr(_, target) => target
    case VNil(rt) => ZeroOf(zs, rt)
  }

  /** x with its struct replaced; a nil pointer becomes an allocated one. */
  function Rewrap(x: Value, fields: Fields): (y: Value)
    requires IsStructLike(x)
    ensures IsStructLike(y)
  {
    if x.VStruct? then VStruct(fields) else VPtr(x.rt, fields)
  }

  predicate HasName(fs: seq<FieldSpec>, name: string) {
    exists i :: 0 <= i < |fs| && fs[i].name == name
  }

  /** Field names are pairwise distinct at every level of a spec. */
  ghost predicate Distinct(fs: seq<FieldSpec>)
    decreases fs
  {
    && (forall i, j :: 0 <= i < j < |fs| ==> fs[i].name != fs[j].name)
    && (forall i :: 0 <= i < |fs| ==> Distinct(fs[i].fields))
  }

  predicate ItemOk(sub: Sub, x: Value) {
    match x
    case VBool(_) => sub == SBool
    case VInt(_) => sub == SInt
    case VUint(_) => sub == SUint
    case VStr(_) => sub == SString
    case _ => false
  }

  /** The entries are pointers to structs. */
  predicate StructMap(typ: FType) {
    typ.TMap? && (typ.sub == SStruct || typ.sub == SAny)
  }

  /** x can be an entry of a map that f describes. */
  ghost predicate ShapedEntry(zs: Zeros, f: FieldSpec, x: Value)
    requires f.typ.TMap?
    decreases f, 1
  {
    match f.typ.sub
    case SStruct => (x.VNil? || x.VPtr?) && ShapedStruct(zs, f, x)
    case SAny => (x.VNil? || x.VPtr?) && f.ref == Some(x.rt)
    case sub => ItemOk(sub, x)
  }

  /** The struct v has the declared shape that fs describes. */
  ghost predicate Shaped(zs: Zeros, fs: seq<FieldSpec>, v: Fields)
    decreases fs
  {
    forall i :: 0 <= i < |fs| ==> fs[i].name in v && ShapedValue(zs, fs[i], v[fs[i].name])
  }

  ghost predicate ShapedValue(zs: Zeros, f: FieldSpec, x: Value)
    decreases f
  {
    match f.typ
    case TBool => x.VBool?
    case TInt => x.VInt?
    case TUint => x.VUint?
    case TString => x.VStr?
    case TBytes => x.VSlice?
    case TArray(SStruct) => x.VSlice? && forall i :: 0 <= i < |x.items| ==> ShapedStruct(zs, f, x.items[i])
    case TArray(sub) => x.VSlice? && forall i :: 0 <= i < |x.items| ==> ItemOk(sub, x.items[i])
    case TMap(KString, _) => x.VMap? && forall k :: k in x.entries ==> ShapedEntry(zs, f, x.entries[k])
    case TMap(_, _) => x.VNumMap? && forall k :: k in x.numEntries ==> ShapedEntry(zs, f, x.numEntries[k])
    case TStruct => ShapedStruct(zs, f, x)
  }

  ghost predicate ShapedStruct(zs: Zeros, f: FieldSpec, x: Value)
    decreases f, 0
  {
    && IsStructLike(x)
    && (if x.VStruct? then f.ref.None? else f.ref == Some(x.rt))
    && Shaped(zs, f.fields, Deref(zs, x))
  }

  ghost predicate ZeroValue(zs: Zeros, f: FieldSpec, x: Value)
    decreases f
  {
    match f.typ
    case TBool => x == VBool(false)
    case TInt => x == VInt(0)
    case TUint => x == VUint(0)
    case TString => x == VStr("")
    case TBytes => x == VSlice([])
    case TArray(_) => x == VSlice([])
    case TMap(KString, _) => x == VMap(map[])
    case TMap(_, _) => x == VNumMap(map[])
    case TStruct =>
      match f.ref
      case Some(rt) => x == VNil(rt)
      case None => x.VStruct? && ZeroFields(zs, f.fields, x.fields)
  }

  /** v is the zero value of a struct described by fs. */
  ghost predicate ZeroFields(zs: Zeros, fs: seq<FieldSpec>, v: Fields)
    decreases fs
  {
    forall i :: 0 <= i < |fs| ==> fs[i].name in v && ZeroValue(zs, fs[i], v[fs[i].name])
  }

  /** The zero struct of every pointer type that fs mentions is one, and maps of
      structs mention theirs. */
  ghost predicate ZerosFit(zs: Zeros, fs: seq<FieldSpec>)
    decreases fs
  {
    forall i :: 0 <= i < |fs| ==>
      && ZerosFit(zs, fs[i].fields)
      && (StructMap(fs[i].typ) ==> fs[i].ref.Some?)
      && (fs[i].ref.Some? ==> ZeroFields(zs, fs[i].fields, ZeroOf(zs, fs[i].ref.value)))
  }

  lemma {:induction false} ZeroIsShaped(zs: Zeros, fs: seq<FieldSpec>, v: Fields)
    requires ZerosFit(zs, fs) && ZeroFields(zs, fs, v)
    ensures Shaped(zs, fs, v)
    decreases fs
  {
    forall i | 0 <= i < |fs| ensures ShapedValue(zs, fs[i], v[fs[i].name]) {
      if fs[i].typ == TStruct {
        ZeroIsShaped(zs, fs[i].fields, Deref(zs, v[fs[i].name]));
      }
    }
  }

  /** A zero struct with the fields of the spec and no others. */
  function SpecZero(fs: seq<FieldSpec>): Fields
    decreases fs
  {
    if fs == [] then map[] else SpecZero(fs[1..])[fs[0].name := SpecZeroValue(fs[0])]
  }

  function SpecZeroValue(f: FieldSpec): Value
    decreases f
  {
    match f.typ
    case TBool => VBool(false)
    case TInt => VInt(0)
    case TUint => VUint(0)
    case TString => VStr("")
    case TBytes => VSlice([])
    case TArray(_) => VSlice([])
    case TMap(KString, _) => VMap(map[])
    case TMap(_, _) => VNumMap(map[])
    case TStruct => if f.ref.Some? then VNil(f.ref.value) else VStruct(SpecZero(f.fields))
  }

  lemma {:induction false} SpecZeroIsZero(zs: Zeros, fs: seq<FieldSpec>)
    requires Distinct(fs)
    ensures ZeroFields(zs, fs, SpecZero(fs))
    decreases fs
  {
    if fs != [] {
      assert Distinct(fs[1..]);
      SpecZeroIsZero(zs, fs[1..]);
      SpecZeroIsZero(zs, fs[0].fields);
      forall i | 0 < i < |fs| ensures fs[i].name in SpecZero(fs) && ZeroValue(zs, fs[i], SpecZero(fs)[fs[i].name]) {
        assert fs[1..][i - 1] == fs[i];
      }
    }
  }
}
