/** Deriving field specs from struct types that may refer to each other in
    cycles: the derivation as a function of (type, depth, kinds above), and the
    parser that computes it with one shared, mutable set of kinds. */
module SpecParse {
  import opened GoTypes

  /** The fields of every named struct type. */
  type TypeEnv = map<string, seq<FieldDecl>>

  const MAX_DEPTH := 10

  const ANY_KIND := "google.golang.org/protobuf/types/known/structpb.Value"

  function KindOf(ty: GoType): string {
    if ty.GNamed? then ty.kind else ""
  }

  predicate Exported(name: string) {
    name != "" && 'A' <= name[0] <= 'Z'
  }

  function TagOf(d: FieldDecl): string {
    if d.json != "" && d.json != "omitempty" then d.json else d.name
  }

  /** x_enums without repetitions, first occurrences kept. */
  function Dedup(enums: seq<string>): seq<string>
    decreases |enums|
  {
    if enums == [] then []
    else
      var front := Dedup(enums[..|enums| - 1]);
      var last := enums[|enums| - 1];
      if last in front then front else front + [last]
  }

  /** An x_value_limits tag is kept only if its three numbers parse, are not
      zero and lie in order; an unsigned one does not parse when negative. */
  function ParseLimits(typ: FType, tag: Option<Limits>): (r: Option<Limits>)
    ensures r.Some? ==> r == tag
    ensures r.Some? <==> tag.Some? && (typ == TInt || typ == TUint) && LimitsKept(typ, tag.value)
  {
    match tag
    case None => None
    case Some(l) =>
      if typ != TInt && typ != TUint then None
      else if l.min == 0 || l.def == 0 || l.max == 0 then None
      else if typ == TUint && (l.min < 0 || l.def < 0 || l.max < 0) then None
      else if l.min > l.max || l.def < l.min || l.def > l.max then None
      else tag
  }

  /** Three numbers in order, none of them zero, all positive for an unsigned field. */
  predicate LimitsKept(typ: FType, l: Limits) {
    0 !in {l.min, l.def, l.max} && l.min <= l.def <= l.max && (typ == TUint ==> l.min > 0)
  }

  function BaseSpec(d: FieldDecl, typ: FType): FieldSpec {
    FieldSpec(d.name, TagOf(d), typ, "", d.attrs,
      if typ == TString then Dedup(d.enums) else [], ParseLimits(typ, d.limits), [], None)
  }

  /** A field whose value, target or elements are structs of type ty. */
  function StructSpec(env: TypeEnv, d: FieldDecl, typ: FType, ty: GoType, ref: Option<GoType>,
      depth: nat, above: set<string>): FieldSpec
    requires IsStruct(ty)
    decreases |env.Keys - above|, ty, 3
  {
    BaseSpec(d, typ).(kind := KindOf(ty), fields := Expand(env, ty, depth, above), ref := ref)
  }

  function ScalarSub(ty: GoType): Option<Sub> {
    match ty
    case GBool => Some(SBool)
    case GInt => Some(SInt)
    case GUint => Some(SUint)
    case GByte => Some(SUint)
    case GString => Some(SString)
    case _ => None
  }

  function KeyType(ty: GoType): Option<MapKey> {
    match ty
    case GString => Some(KString)
    case GInt => Some(KInt)
    case GUint => Some(KUint)
    case GByte => Some(KUint)
    case _ => None
  }

  /** The spec of one declared field, None for a type the parser skips. */
  function FieldOf(env: TypeEnv, d: FieldDecl, depth: nat, above: set<string>): Option<FieldSpec>
    decreases |env.Keys - above|, d, 0
  {
    match d.ty
    case GBool => Some(BaseSpec(d, TBool))
    case GInt => Some(BaseSpec(d, TInt))
    case GUint => Some(BaseSpec(d, TUint))
    case GByte => Some(BaseSpec(d, TUint))
    case GString => Some(BaseSpec(d, TString))
    case GNamed(_) => Some(StructSpec(env, d, TStruct, d.ty, None, depth + 1, above))
    case GAnon(_) => Some(StructSpec(env, d, TStruct, d.ty, None, depth + 1, above))
    case GPtr(elem) =>
      if IsStruct(elem) then Some(StructSpec(env, d, TStruct, elem, Some(elem), depth + 1, above)) else None
    case GSlice(elem) =>
      if elem == GByte then Some(BaseSpec(d, TBytes)) else ArrayOf(env, d, elem, depth + 1, above)
    case GMap(key, val) =>
      if KeyType(key).None? then None
      else if ScalarSub(val).Some? then Some(BaseSpec(d, TMap(KeyType(key).value, ScalarSub(val).value)))
      else if val.GPtr? && IsStruct(val.elem) then
        var sub := if KindOf(val.elem) == ANY_KIND then SAny else SStruct;
        Some(StructSpec(env, d, TMap(KeyType(key).value, sub), val.elem, Some(val.elem), depth + 1, above))
      else None
    case GOther => None
  }

  /** The spec of a slice of ty, None beyond the maximal depth. */
  function ArrayOf(env: TypeEnv, d: FieldDecl, ty: GoType, depth: nat, above: set<string>): Option<FieldSpec>
    decreases |env.Keys - above|, ty, 4
  {
    if depth > MAX_DEPTH then None
    else if ScalarSub(ty).Some? then Some(BaseSpec(d, TArray(ScalarSub(ty).value)))
    else if IsStruct(ty) then Some(StructSpec(env, d, TArray(SStruct), ty, None, depth + 1, above))
    else if ty.GPtr? && IsStruct(ty.elem) then
      Some(StructSpec(env, d, TArray(SStruct), ty.elem, Some(ty.elem), depth + 1, above))
    else None
  }

  /** The fields of struct type ty below the kinds `above`; none if ty is one of
      them. Each named kind entered leaves one kind fewer to enter, and between
      two of them only the nesting of anonymous types is descended. */
  function Expand(env: TypeEnv, ty: GoType, depth: nat, above: set<string>): seq<FieldSpec>
    requires IsStruct(ty)
    decreases |env.Keys - above|, ty, 1
  {
    match ty
    case GNamed(kind) =>
      if kind in above || kind !in env then []
      else
        OneKindFewer(env.Keys, above, kind);
        ExpandDecls(env, env[kind], depth, above + {kind}, [])
    case GAnon(decls) => ExpandDecls(env, decls, depth, above, [])
  }

  lemma OneKindFewer(keys: set<string>, above: set<string>, kind: string)
    requires kind in keys && kind !in above
    ensures |keys - (above + {kind})| == |keys - above| - 1
  {
    assert keys - (above + {kind}) == (keys - above) - {kind};
  }

  /** Skips unexported fields and repeated names. */
  function ExpandDecls(env: TypeEnv, decls: seq<FieldDecl>, depth: nat, above: set<string>, names: seq<string>)
    : seq<FieldSpec>
    decreases |env.Keys - above|, decls, 0
  {
    if decls == [] then []
    else
      var d, rest := decls[0], decls[1..];
      if !Exported(d.name) || d.name in names then ExpandDecls(env, rest, depth, above, names)
      else
        var more := ExpandDecls(env, rest, depth, above, names + [d.name]);
        match FieldOf(env, d, depth, above)
        case Some(f) => [f] + more
        case None => more
  }

  /** The spec of a whole type. */
  function Derive(env: TypeEnv, ty: GoType): seq<FieldSpec>
    requires IsStruct(ty)
  {
    Expand(env, ty, 0, {})
  }

  // ---------------------------------------------------------------- the parser

  class SpecParser {
    const env: TypeEnv
    var parseSet: set<string>

    constructor (env: TypeEnv)
      ensures this.env == env && parseSet == {}
    {
      this.env, parseSet := env, {};
    }

    /** Appends the fields of struct type rt to pField, unless its kind is being
        parsed further up. The kind is in parseSet while the fields are parsed
        and out of it again on return. */
    method ParseStruct(depth: nat, pField: FieldSpec, rt: GoType) returns (out: FieldSpec)
      requires IsStruct(rt) && pField.kind == KindOf(rt) && "" !in env
      modifies this
      ensures parseSet == old(parseSet)
      ensures out == pField.(fields := pField.fields + Expand(env, rt, depth, old(parseSet)))
      ensures pField.fields == [] ==> out.fields == Expand(env, rt, depth, old(parseSet))
      decreases |env.Keys - parseSet|, rt, 1
    {
      out := pField;
      if pField.kind != "" {
        if pField.kind in parseSet {
          return;
        }
        parseSet := parseSet + {pField.kind};
        if pField.kind in env {
          OneKindFewer(env.Keys, old(parseSet), pField.kind);
          var fields := ParseDecls(depth, env[pField.kind]);
          out := out.(fields := out.fields + fields);
        }
        parseSet := parseSet - {pField.kind};
      } else if rt.GAnon? {
        var fields := ParseDecls(depth, rt.decls);
        out := out.(fields := out.fields + fields);
      }
    }

    /** The loop over the declared fields of one struct. */
    method ParseDecls(depth: nat, decls: seq<FieldDecl>) returns (fields: seq<FieldSpec>)
      requires "" !in env
      modifies this
      ensures parseSet == old(parseSet)
      ensures fields == ExpandDecls(env, decls, depth, old(parseSet), [])
      decreases |env.Keys - parseSet|, decls, 0
    {
      fields := [];
      var names: seq<string> := [];
      ghost var all := ExpandDecls(env, decls, depth, parseSet, []);
      for i := 0 to |decls|
        invariant parseSet == old(parseSet)
        invariant all == fields + ExpandDecls(env, decls[i..], depth, parseSet, names)
      {
        var d := decls[i];
        assert decls[i..][0] == d && decls[i..][1..] == decls[i + 1..];
        if Exported(d.name) && d.name !in names {
          names := names + [d.name];
          var field := ParseField(depth, d);
          match field
          case Some(f) => fields := fields + [f];
          case None =>
        }
      }
    }

    /** The switch on the kind of one field's type. */
    method ParseField(depth: nat, d: FieldDecl) returns (field: Option<FieldSpec>)
      requires "" !in env
      modifies this
      ensures parseSet == old(parseSet)
      ensures field == FieldOf(env, d, depth, old(parseSet))
      decreases |env.Keys - parseSet|, d, 0
    {
      field := None;
      match d.ty
      case GBool => field := Some(BaseSpec(d, TBool));
      case GInt => field := Some(BaseSpec(d, TInt));
      case GUint => field := Some(BaseSpec(d, TUint));
      case GByte => field := Some(BaseSpec(d, TUint));
      case GString => field := Some(BaseSpec(d, TString));
      case GNamed(_) =>
        var f := ParseStruct(depth + 1, BaseSpec(d, TStruct).(kind := KindOf(d.ty)), d.ty);
        field := Some(f);
      case GAnon(_) =>
        var f := ParseStruct(depth + 1, BaseSpec(d, TStruct).(kind := KindOf(d.ty)), d.ty);
        field := Some(f);
      case GPtr(elem) =>
        if IsStruct(elem) {
          var f := ParseStruct(depth + 1, BaseSpec(d, TStruct).(kind := KindOf(elem), ref := Some(elem)), elem);
          field := Some(f);
        }
      case GSlice(elem) =>
        if elem == GByte {
          field := Some(BaseSpec(d, TBytes));
        } else {
          field := ParseArray(depth + 1, d, elem);
        }
      case GMap(key, val) =>
        var mapKey := KeyType(key);
        if mapKey.Some? {
          var scalar := ScalarSub(val);
          if scalar.Some? {
            field := Some(BaseSpec(d, TMap(mapKey.value, scalar.value)));
          } else if val.GPtr? && IsStruct(val.elem) {
            var sub := if KindOf(val.elem) == ANY_KIND then SAny else SStruct;
            var base := BaseSpec(d, TMap(mapKey.value, sub));
            var f := ParseStruct(depth + 1, base.(kind := KindOf(val.elem), ref := Some(val.elem)), val.elem);
            field := Some(f);
          }
        }
      case GOther =>
    }

    method ParseArray(depth: nat, d: FieldDecl, rt: GoType) returns (field: Option<FieldSpec>)
      requires "" !in env
      modifies this
      ensures parseSet == old(parseSet)
      ensures field == ArrayOf(env, d, rt, depth, old(parseSet))
      decreases |env.Keys - parseSet|, rt, 4
    {
      field := None;
      if depth > MAX_DEPTH {
        return;
      }
      var scalar := ScalarSub(rt);
      var base := BaseSpec(d, TArray(SStruct));
      if scalar.Some? {
        field := Some(BaseSpec(d, TArray(scalar.value)));
      } else if IsStruct(rt) {
        var f := ParseStruct(depth + 1, base.(kind := KindOf(rt)), rt);
        field := Some(f);
      } else if rt.GPtr? && IsStruct(rt.elem) {
        var f := ParseStruct(depth + 1, base.(kind := KindOf(rt.elem), ref := Some(rt.elem)), rt.elem);
        field := Some(f);
      }
    }
  }

  /** parseSpecByStructType: a fresh parser on the whole type. */
  method ParseSpec(env: TypeEnv, rt: GoType) returns (fields: seq<FieldSpec>)
    requires IsStruct(rt) && "" !in env
    ensures fields == Derive(env, rt)
  {
    var parser := new SpecParser(env);
    var base := FieldSpec("", "", TStruct, KindOf(rt), [], [], None, [], None);
    var spec := parser.ParseStruct(0, base, rt);
    fields := spec.fields;
  }
}
