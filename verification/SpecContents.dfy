/** What a derived spec holds: exactly one field for each declaration the parser
    takes, in their order, each with what its declaration says. */
module SpecContents {
  import opened GoTypes
  import opened SpecParse

  // ------------------------------------------------ what a declaration stands for

  /** The type of the field for a Go type, None for the types that give none. */
  function TypeIn(ty: GoType, depth: nat): Option<FType> {
    match ty
    case GBool => Some(TBool)
    case GInt => Some(TInt)
    case GUint => Some(TUint)
    case GByte => Some(TUint)
    case GString => Some(TString)
    case GNamed(_) => Some(TStruct)
    case GAnon(_) => Some(TStruct)
    case GPtr(GNamed(_)) => Some(TStruct)
    case GPtr(GAnon(_)) => Some(TStruct)
    case GPtr(_) => None
    case GSlice(GByte) => Some(TBytes)
    case GSlice(elem) => if depth < 10 then SliceOf(elem) else None
    case GMap(GString, val) => MapOf(KString, val)
    case GMap(GInt, val) => MapOf(KInt, val)
    case GMap(GUint, val) => MapOf(KUint, val)
    case GMap(GByte, val) => MapOf(KUint, val)
    case GMap(_, _) => None
    case GOther => None
  }

  function SliceOf(elem: GoType): Option<FType> {
    match elem
    case GBool => Some(TArray(SBool))
    case GInt => Some(TArray(SInt))
    case GUint => Some(TArray(SUint))
    case GByte => Some(TArray(SUint))
    case GString => Some(TArray(SString))
    case GNamed(_) => Some(TArray(SStruct))
    case GAnon(_) => Some(TArray(SStruct))
    case GPtr(GNamed(_)) => Some(TArray(SStruct))
    case GPtr(GAnon(_)) => Some(TArray(SStruct))
    case _ => None
  }

  function MapOf(key: MapKey, val: GoType): Option<FType> {
    match val
    case GBool => Some(TMap(key, SBool))
    case GInt => Some(TMap(key, SInt))
    case GUint => Some(TMap(key, SUint))
    case GByte => Some(TMap(key, SUint))
    case GString => Some(TMap(key, SString))
    case GPtr(GNamed(kind)) =>
      Some(TMap(key, if kind == "google.golang.org/protobuf/types/known/structpb.Value" then SAny else SStruct))
    case GPtr(GAnon(_)) => Some(TMap(key, SStruct))
    case _ => None
  }

  /** The struct type a declared type leads to, and whether by a pointer. */
  datatype Behind = Nothing | Held(ty: GoType) | Pointed(ty: GoType)

  function BehindOf(ty: GoType): Behind {
    match ty
    case GNamed(_) => Held(ty)
    case GAnon(_) => Held(ty)
    case GPtr(elem) => if elem.GNamed? || elem.GAnon? then Pointed(elem) else Nothing
    case GSlice(elem) => if elem.GSlice? || elem.GMap? then Nothing else BehindOf(elem)
    case GMap(_, GPtr(elem)) => if elem.GNamed? || elem.GAnon? then Pointed(elem) else Nothing
    case _ => Nothing
  }

  /** Each listed string once, in the order of their first occurrences. */
  ghost predicate ListsOnce(tag: seq<string>, enums: seq<string>) {
    && (forall e :: e in enums <==> e in tag)
    && (forall a, b :: 0 <= a < b < |enums| ==> enums[a] != enums[b])
    && (forall a, b, q :: 0 <= a < b < |enums| && 0 <= q < |tag| && tag[q] == enums[b] ==> enums[a] in tag[..q])
  }

  /** f says what d declares. */
  ghost predicate Carries(env: TypeEnv, d: FieldDecl, f: FieldSpec, depth: nat, above: set<string>) {
    && f.name == d.name
    && f.tagName == (if d.json == "" || d.json == "omitempty" then d.name else d.json)
    && Some(f.typ) == TypeIn(d.ty, depth)
    && f.attrs == d.attrs
    && (if d.ty == GString then ListsOnce(d.enums, f.enums) else f.enums == [])
    && f.limits == (if (f.typ == TInt || f.typ == TUint) && d.limits.Some? && LimitsKept(f.typ, d.limits.value)
                    then d.limits else None)
    && match BehindOf(d.ty) {
        case Nothing => f.kind == "" && f.ref == None && f.fields == []
        case Held(ty) => f.ref == None && Leads(env, d, f, ty, depth, above)
        case Pointed(ty) => f.ref == Some(ty) && Leads(env, d, f, ty, depth, above)
      }
  }

  /** The sub-fields of f are those of ty, below the kinds above. */
  ghost predicate Leads(env: TypeEnv, d: FieldDecl, f: FieldSpec, ty: GoType, depth: nat, above: set<string>) {
    && (ty.GNamed? || ty.GAnon?)
    && f.kind == (if ty.GNamed? then ty.kind else "")
    && f.fields == Expand(env, ty, if d.ty.GSlice? then depth + 2 else depth + 1, above)
  }

  // ------------------------------------------------------ which declarations count

  /** Declaration n is exported, the first of its name, and of a type that gives
      a field. */
  predicate Counts(decls: seq<FieldDecl>, n: nat, depth: nat)
    requires n < |decls|
  {
    && decls[n].name != "" && 'A' <= decls[n].name[0] <= 'Z'
    && (forall j :: 0 <= j < n ==> decls[j].name != decls[n].name)
    && TypeIn(decls[n].ty, depth).Some?
  }

  /** The declarations from n on that count, in their order. */
  function CountingFrom(decls: seq<FieldDecl>, n: nat, depth: nat): seq<FieldDecl>
    requires n <= |decls|
    decreases |decls| - n
  {
    if n == |decls| then []
    else (if Counts(decls, n, depth) then [decls[n]] else []) + CountingFrom(decls, n + 1, depth)
  }

  // ------------------------------------------------------------------------ proofs

  lemma {:induction false} DedupListsOnce(tag: seq<string>)
    ensures ListsOnce(tag, Dedup(tag))
    decreases |tag|
  {
    if tag != [] {
      var n := |tag| - 1;
      var front, last := tag[..n], tag[n];
      DedupListsOnce(front);
      assert tag == front + [last];
      var enums := Dedup(tag);
      forall a, b, q | 0 <= a < b < |enums| && 0 <= q < |tag| && tag[q] == enums[b] ensures enums[a] in tag[..q] {
        if q < n {
          assert front[q] == enums[b] && front[..q] == tag[..q];
        } else {
          assert enums[a] in Dedup(front) && tag[..q] == front;
        }
      }
    }
  }

  lemma BaseCarries(d: FieldDecl, typ: FType)
    ensures var f := BaseSpec(d, typ);
      && f.name == d.name && f.typ == typ && f.attrs == d.attrs
      && f.tagName == (if d.json == "" || d.json == "omitempty" then d.name else d.json)
      && (if typ == TString then ListsOnce(d.enums, f.enums) else f.enums == [])
      && f.limits == (if (typ == TInt || typ == TUint) && d.limits.Some? && LimitsKept(typ, d.limits.value)
                      then d.limits else None)
      && f.kind == "" && f.ref == None && f.fields == []
  {
    DedupListsOnce(d.enums);
  }

  lemma StructCarries(env: TypeEnv, d: FieldDecl, typ: FType, ty: GoType, ref: Option<GoType>, depth: nat,
      above: set<string>)
    requires IsStruct(ty) && typ != TString && Some(typ) == TypeIn(d.ty, depth)
    requires BehindOf(d.ty) == if ref.Some? then Pointed(ty) else Held(ty)
    requires ref == None || ref == Some(ty)
    ensures Carries(env, d, StructSpec(env, d, typ, ty, ref, if d.ty.GSlice? then depth + 2 else depth + 1, above), depth, above)
  {
    BaseCarries(d, typ);
  }

  lemma SliceCarries(env: TypeEnv, d: FieldDecl, depth: nat, above: set<string>)
    requires d.ty.GSlice? && d.ty.elem != GByte
    ensures FieldOf(env, d, depth, above).Some? <==> TypeIn(d.ty, depth).Some?
    ensures FieldOf(env, d, depth, above).Some? ==> Carries(env, d, FieldOf(env, d, depth, above).value, depth, above)
  {
    var elem := d.ty.elem;
    assert FieldOf(env, d, depth, above) == ArrayOf(env, d, elem, depth + 1, above);
    if depth < 10 {
      if IsStruct(elem) {
        assert ArrayOf(env, d, elem, depth + 1, above) == Some(StructSpec(env, d, TArray(SStruct), elem, None, depth + 2, above));
        StructCarries(env, d, TArray(SStruct), elem, None, depth, above);
      } else if elem.GPtr? && IsStruct(elem.elem) {
        assert ArrayOf(env, d, elem, depth + 1, above)
          == Some(StructSpec(env, d, TArray(SStruct), elem.elem, Some(elem.elem), depth + 2, above));
        StructCarries(env, d, TArray(SStruct), elem.elem, Some(elem.elem), depth, above);
      } else if SliceOf(elem).Some? {
        assert ArrayOf(env, d, elem, depth + 1, above) == Some(BaseSpec(d, SliceOf(elem).value));
        BaseCarries(d, SliceOf(elem).value);
      } else {
        assert ArrayOf(env, d, elem, depth + 1, above) == None;
      }
    } else {
      assert ArrayOf(env, d, elem, depth + 1, above) == None;
    }
  }

  lemma MapCarries(env: TypeEnv, d: FieldDecl, depth: nat, above: set<string>)
    requires d.ty.GMap?
    ensures FieldOf(env, d, depth, above).Some? <==> TypeIn(d.ty, depth).Some?
    ensures FieldOf(env, d, depth, above).Some? ==> Carries(env, d, FieldOf(env, d, depth, above).value, depth, above)
  {
    var val := d.ty.val;
    if TypeIn(d.ty, depth).Some? {
      var typ := TypeIn(d.ty, depth).value;
      if val.GPtr? {
        assert FieldOf(env, d, depth, above) == Some(StructSpec(env, d, typ, val.elem, Some(val.elem), depth + 1, above));
        StructCarries(env, d, typ, val.elem, Some(val.elem), depth, above);
      } else {
        assert FieldOf(env, d, depth, above) == Some(BaseSpec(d, typ));
        BaseCarries(d, typ);
      }
    }
  }

  /** A declaration gives a field exactly if its type is one of those, and then
      one that carries what it says. */
  lemma FieldCarries(env: TypeEnv, d: FieldDecl, depth: nat, above: set<string>)
    ensures FieldOf(env, d, depth, above).Some? <==> TypeIn(d.ty, depth).Some?
    ensures FieldOf(env, d, depth, above).Some? ==> Carries(env, d, FieldOf(env, d, depth, above).value, depth, above)
  {
    match d.ty
    case GSlice(elem) =>
      if elem == GByte {
        BaseCarries(d, TBytes);
      } else {
        SliceCarries(env, d, depth, above);
      }
    case GMap(_, _) => MapCarries(env, d, depth, above);
    case GNamed(_) => StructCarries(env, d, TStruct, d.ty, None, depth, above);
    case GAnon(_) => StructCarries(env, d, TStruct, d.ty, None, depth, above);
    case GPtr(elem) =>
      if IsStruct(elem) {
        StructCarries(env, d, TStruct, elem, Some(elem), depth, above);
      }
    case GOther =>
    case _ => BaseCarries(d, TypeIn(d.ty, depth).value);
  }

  /** The names that the parser has seen before declaration n. */
  ghost predicate SeenBefore(decls: seq<FieldDecl>, n: nat, names: seq<string>)
    requires n <= |decls|
  {
    forall name :: name in names <==> name != "" && 'A' <= name[0] <= 'Z' && exists j :: 0 <= j < n && decls[j].name == name
  }

  lemma SeenNext(decls: seq<FieldDecl>, n: nat, names: seq<string>)
    requires n < |decls| && SeenBefore(decls, n, names)
    ensures var d := decls[n];
      SeenBefore(decls, n + 1, if !Exported(d.name) || d.name in names then names else names + [d.name])
  {
  }

  ghost predicate AllCarry(env: TypeEnv, decls: seq<FieldDecl>, fs: seq<FieldSpec>, depth: nat, above: set<string>) {
    |fs| == |decls| && forall i :: 0 <= i < |fs| ==> Carries(env, decls[i], fs[i], depth, above)
  }

  lemma AppendCarries(env: TypeEnv, ds: seq<FieldDecl>, gs: seq<FieldSpec>, decls: seq<FieldDecl>, fs: seq<FieldSpec>,
      depth: nat, above: set<string>)
    requires AllCarry(env, ds, gs, depth, above) && AllCarry(env, decls, fs, depth, above)
    ensures AllCarry(env, ds + decls, gs + fs, depth, above)
  {
  }

  /** One pass of the loop, on the declarations from n on. */
  lemma {:induction false} ExpandStep(env: TypeEnv, decls: seq<FieldDecl>, n: nat, depth: nat, above: set<string>,
      names: seq<string>)
    requires n < |decls|
    ensures ExpandDecls(env, decls[n..], depth, above, names) ==
      OneField(env, decls[n], depth, above, names) + ExpandDecls(env, decls[n + 1..], depth, above, NamesNext(decls[n], names))
  {
    assert decls[n..][0] == decls[n] && decls[n..][1..] == decls[n + 1..];
  }

  function NamesNext(d: FieldDecl, names: seq<string>): seq<string> {
    if !Exported(d.name) || d.name in names then names else names + [d.name]
  }

  function OneField(env: TypeEnv, d: FieldDecl, depth: nat, above: set<string>, names: seq<string>): seq<FieldSpec> {
    if !Exported(d.name) || d.name in names || FieldOf(env, d, depth, above).None? then []
    else [FieldOf(env, d, depth, above).value]
  }

  lemma OneListed(env: TypeEnv, decls: seq<FieldDecl>, n: nat, depth: nat, above: set<string>, names: seq<string>)
    requires n < |decls| && SeenBefore(decls, n, names)
    ensures AllCarry(env, if Counts(decls, n, depth) then [decls[n]] else [], OneField(env, decls[n], depth, above, names),
      depth, above)
  {
    FieldCarries(env, decls[n], depth, above);
  }

  lemma {:induction false} DeclsListed(env: TypeEnv, decls: seq<FieldDecl>, n: nat, depth: nat, above: set<string>,
      names: seq<string>)
    requires n <= |decls| && SeenBefore(decls, n, names)
    ensures AllCarry(env, CountingFrom(decls, n, depth), ExpandDecls(env, decls[n..], depth, above, names), depth, above)
    decreases |decls| - n
  {
    if n < |decls| {
      SeenNext(decls, n, names);
      OneListed(env, decls, n, depth, above, names);
      DeclsListed(env, decls, n + 1, depth, above, NamesNext(decls[n], names));
      ExpandStep(env, decls, n, depth, above, names);
      AppendCarries(env, if Counts(decls, n, depth) then [decls[n]] else [], OneField(env, decls[n], depth, above, names),
        CountingFrom(decls, n + 1, depth), ExpandDecls(env, decls[n + 1..], depth, above, NamesNext(decls[n], names)),
        depth, above);
    }
  }

  /** The declarations of a struct type that are parsed below the kinds above. */
  function Parsed(env: TypeEnv, ty: GoType, above: set<string>): seq<FieldDecl> {
    match ty
    case GNamed(kind) => if kind in env && kind !in above then env[kind] else []
    case GAnon(decls) => decls
    case _ => []
  }

  /** A derived spec has one field for each declaration that counts, in their
      order and carrying what they say, and no others. */
  lemma ExpandLists(env: TypeEnv, ty: GoType, depth: nat, above: set<string>)
    requires IsStruct(ty)
    ensures AllCarry(env, CountingFrom(Parsed(env, ty, above), 0, depth), Expand(env, ty, depth, above), depth,
      if ty.GNamed? then above + {ty.kind} else above)
  {
    var decls := Parsed(env, ty, above);
    var here := if ty.GNamed? then above + {ty.kind} else above;
    assert decls[0..] == decls;
    DeclsListed(env, decls, 0, depth, here, []);
    if ty.GNamed? && ty.kind in env && ty.kind !in above {
      OneKindFewer(env.Keys, above, ty.kind);
      assert Expand(env, ty, depth, above) == ExpandDecls(env, decls, depth, here, []);
    }
  }
}
