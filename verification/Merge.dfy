/** The merge of one struct into another under a spec, as a function of the two
    values: what every field ends up as, whether the change flag is raised, and
    with what error the merge stops. */
module Merge {
  import opened GoTypes

  datatype MergeType = UnSpec | Create | Update | Delete

  datatype MergeError =
    | NoErr
    | ErrType       // the field's kind does not fit its spec
    | ErrEnum       // a string outside the enums
    | ErrLimit      // a number outside the limits
    | ErrItem       // a slice or map element of the wrong kind
    | ErrRequired   // nothing given for a required field
    | Panics        // reflection would panic

  datatype FieldOut = FieldOut(val: Value, chg: bool, err: MergeError)

  datatype Out = Out(dst: Fields, chg: bool, err: MergeError)

  const MIN_INT64: int := -0x8000_0000_0000_0000
  const MAX_INT64: int := 0x7fff_ffff_ffff_ffff
  const MAX_UINT64: int := 0xffff_ffff_ffff_ffff

  function IntLimits(f: FieldSpec): Limits {
    match f.limits
    case None => Limits(MIN_INT64, 0, MAX_INT64)
    case Some(l) => l
  }

  function UintLimits(f: FieldSpec): Limits {
    match f.limits
    case None => Limits(0, 0, MAX_UINT64)
    case Some(l) => l
  }

  predicate InLimits(l: Limits, n: int) {
    l.min <= n <= l.max
  }

  /** The limits carry a default that a zero field would take. */
  predicate HasDefault(l: Limits) {
    l.def != 0 && InLimits(l, l.def)
  }

  predicate Allowed(enums: seq<string>, s: string) {
    enums == [] || s in enums
  }

  predicate Required(f: FieldSpec, mt: MergeType) {
    (mt == Create && CreateRequired in f.attrs) || (mt == Update && UpdateRequired in f.attrs)
  }

  predicate ItemsOk(sub: Sub, items: seq<Value>) {
    forall i :: 0 <= i < |items| ==> ItemOk(sub, items[i])
  }

  predicate EntryOk(sub: Sub, x: Value) {
    match x
    case VNil(_) => false
    case VPtr(_, _) => sub == SAny || sub == SStruct
    case VStruct(_) => sub == SAny || sub == SStruct
    case _ => ItemOk(sub, x)
  }

  predicate EntriesOk(sub: Sub, entries: map<string, Value>) {
    forall k :: k in entries ==> EntryOk(sub, entries[k])
  }

  function Keep(x: Value, err: MergeError): FieldOut {
    FieldOut(x, false, err)
  }

  /** A zero source with no default to take: the field stays, unless required. */
  function KeepZero(f: FieldSpec, x: Value, mt: MergeType): FieldOut {
    Keep(x, if Required(f, mt) then ErrRequired else NoErr)
  }

  function MergeInt(f: FieldSpec, x: Value, i: int, mt: MergeType): FieldOut {
    var l := IntLimits(f);
    if i != 0 && !InLimits(l, i) then Keep(x, ErrLimit)
    else if !x.VInt? then Keep(x, Panics)
    else if i != 0 then FieldOut(VInt(i), x.i != i, NoErr)
    else if x.i == 0 && HasDefault(l) then FieldOut(VInt(l.def), true, NoErr)
    else KeepZero(f, x, mt)
  }

  function MergeUint(f: FieldSpec, x: Value, n: nat, mt: MergeType): FieldOut {
    var l := UintLimits(f);
    if n != 0 && !InLimits(l, n) then Keep(x, ErrLimit)
    else if !x.VUint? then Keep(x, Panics)
    else if n != 0 then FieldOut(VUint(n), x.n != n, NoErr)
    else if x.n == 0 && HasDefault(l) then
      if l.def < 0 then Keep(x, Panics) else FieldOut(VUint(l.def), true, NoErr)
    else KeepZero(f, x, mt)
  }

  function MergeString(f: FieldSpec, x: Value, s: string, mt: MergeType): FieldOut {
    if !x.VStr? then Keep(x, ErrType)
    else if s == "" then KeepZero(f, x, mt)
    else if !Allowed(f.enums, s) then Keep(x, ErrEnum)
    else FieldOut(VStr(s), x.s != s, NoErr)
  }

  function MergeSlice(f: FieldSpec, x: Value, items: seq<Value>): FieldOut {
    if !f.typ.TArray? || !x.VSlice? then Keep(x, ErrType)
    else if items == [] then Keep(x, NoErr)
    else if !ItemsOk(f.typ.sub, items) then Keep(x, ErrItem)
    else FieldOut(VSlice(items), true, NoErr)
  }

  function MergeMap(f: FieldSpec, x: Value, v: Value): FieldOut
    requires v.VMap? || v.VNumMap?
  {
    if !(f.typ.TMap? || f.typ.TArray?) || !(x.VMap? || x.VNumMap?) then Keep(x, ErrType)
    else if f.typ.TArray? || f.typ.key != KString then Keep(x, NoErr)
    else if v.VMap? && !EntriesOk(f.typ.sub, v.entries) then Keep(x, ErrItem)
    else if v.VMap? != x.VMap? then Keep(x, Panics)
    else FieldOut(v, true, NoErr)
  }

  /** Every kind of source but structs and pointers to them. */
  function MergeLeaf(f: FieldSpec, x: Value, v: Value, mt: MergeType): FieldOut
    requires !IsStructLike(v)
  {
    match v
    case VBool(b) =>
      if f.typ != TBool || !x.VBool? then Keep(x, ErrType) else FieldOut(v, x.b != b, NoErr)
    case VStr(s) => if f.typ != TString then Keep(x, ErrType) else MergeString(f, x, s, mt)
    case VInt(i) => if f.typ != TInt then Keep(x, ErrType) else MergeInt(f, x, i, mt)
    case VUint(n) => if f.typ != TUint then Keep(x, ErrType) else MergeUint(f, x, n, mt)
    case VSlice(items) => MergeSlice(f, x, items)
    case VMap(_) => MergeMap(f, x, v)
    case VNumMap(_) => MergeMap(f, x, v)
    case VOther(_) => Keep(x, NoErr)
  }

  /** Merging the value v into a field that holds x. */
  function MergeValue(zs: Zeros, f: FieldSpec, x: Value, v: Value, mt: MergeType): FieldOut
    decreases f, 0
  {
    if !IsStructLike(v) then MergeLeaf(f, x, v, mt)
    else if f.typ != TStruct || !IsStructLike(x) then Keep(x, ErrType)
    else if v.VNil? then Keep(Rewrap(x, Deref(zs, x)), NoErr)
    else
      var r := MergeFields(zs, f.fields, Deref(zs, x), Deref(zs, v), mt);
      FieldOut(Rewrap(x, r.dst), r.chg, r.err)
  }

  /** One pass of the loop over the fields of a spec. */
  function MergeField(zs: Zeros, f: FieldSpec, d: Fields, s: Fields, mt: MergeType): Out
    decreases f, 1
  {
    if f.name !in s && f.tagName !in s then
      Out(d, false, if Required(f, mt) then ErrRequired else NoErr)
    else if f.name !in d then Out(d, false, NoErr)
    else
      var v := if f.name in s then s[f.name] else s[f.tagName];
      var r := MergeValue(zs, f, d[f.name], v, mt);
      Out(d[f.name := r.val], r.chg, r.err)
  }

  /** The whole loop: it stops at the first error and keeps what it wrote. */
  function MergeFields(zs: Zeros, fs: seq<FieldSpec>, d: Fields, s: Fields, mt: MergeType): Out
    decreases fs
  {
    if fs == [] then Out(d, false, NoErr)
    else
      var r := MergeField(zs, fs[0], d, s, mt);
      if r.err != NoErr then r
      else
        var t := MergeFields(zs, fs[1..], r.dst, s, mt);
        Out(t.dst, r.chg || t.chg, t.err)
  }

  /** Every field of the spec is present in v. */
  ghost predicate HasFields(fs: seq<FieldSpec>, v: Fields) {
    forall i :: 0 <= i < |fs| ==> fs[i].name in v
  }

  ghost predicate DistinctNames(fs: seq<FieldSpec>) {
    forall i, j :: 0 <= i < j < |fs| ==> fs[i].name != fs[j].name
  }

  /** The outcome for field i alone, as if the other fields were not there. */
  function FieldResult(zs: Zeros, f: FieldSpec, d: Fields, s: Fields, mt: MergeType): FieldOut
    requires f.name in d && f.name in s
  {
    MergeValue(zs, f, d[f.name], s[f.name], mt)
  }

  /** A field of the result is as it was, or as merging it alone leaves it. */
  predicate Settled(zs: Zeros, f: FieldSpec, d: Fields, s: Fields, mt: MergeType, after: Fields)
    requires f.name in d && f.name in s && f.name in after
  {
    after[f.name] == d[f.name] || after[f.name] == FieldResult(zs, f, d, s, mt).val
  }

  predicate Succeeds(zs: Zeros, f: FieldSpec, d: Fields, s: Fields, mt: MergeType, after: Fields)
    requires f.name in d && f.name in s && f.name in after
  {
    FieldResult(zs, f, d, s, mt).err == NoErr && after[f.name] == FieldResult(zs, f, d, s, mt).val
  }

  lemma TailNames(fs: seq<FieldSpec>)
    requires fs != []
    ensures forall k :: HasName(fs[1..], k) ==> HasName(fs, k)
  {
    forall k | HasName(fs[1..], k) ensures HasName(fs, k) {
      var i :| 0 <= i < |fs[1..]| && fs[1..][i].name == k;
      assert fs[i + 1].name == k;
    }
  }

  lemma HeadOfDistinct(fs: seq<FieldSpec>)
    requires fs != [] && DistinctNames(fs)
    ensures DistinctNames(fs[1..]) && !HasName(fs[1..], fs[0].name)
  {
  }

  /** The loop writes nothing outside the spec. */
  lemma {:induction false} Frame(zs: Zeros, fs: seq<FieldSpec>, d: Fields, s: Fields, mt: MergeType)
    ensures MergeFields(zs, fs, d, s, mt).dst.Keys == d.Keys
    ensures forall k :: k in d && !HasName(fs, k) ==> MergeFields(zs, fs, d, s, mt).dst[k] == d[k]
    decreases |fs|
  {
    if fs != [] {
      var r := MergeField(zs, fs[0], d, s, mt);
      Frame(zs, fs[1..], r.dst, s, mt);
      TailNames(fs);
      forall k | k in d && !HasName(fs, k) ensures fs[0].name != k {}
    }
  }

  /** Whatever happens, every field is settled. */
  lemma {:induction false} AllSettled(zs: Zeros, fs: seq<FieldSpec>, d: Fields, s: Fields, mt: MergeType)
    requires DistinctNames(fs) && HasFields(fs, d) && HasFields(fs, s)
    ensures MergeFields(zs, fs, d, s, mt).dst.Keys == d.Keys
    ensures forall i :: 0 <= i < |fs| ==> Settled(zs, fs[i], d, s, mt, MergeFields(zs, fs, d, s, mt).dst)
    decreases |fs|
  {
    Frame(zs, fs, d, s, mt);
    if fs != [] {
      var r := MergeField(zs, fs[0], d, s, mt);
      if r.err == NoErr {
        HeadOfDistinct(fs);
        AllSettled(zs, fs[1..], r.dst, s, mt);
        Frame(zs, fs[1..], r.dst, s, mt);
        forall i | 0 < i < |fs| ensures Settled(zs, fs[i], d, s, mt, MergeFields(zs, fs, d, s, mt).dst) {
          assert fs[1..][i - 1] == fs[i];
          assert Settled(zs, fs[1..][i - 1], r.dst, s, mt, MergeFields(zs, fs[1..], r.dst, s, mt).dst);
        }
      }
    }
  }

  /** The other fields do not see that the first one was merged. */
  lemma TailResults(zs: Zeros, fs: seq<FieldSpec>, d: Fields, s: Fields, mt: MergeType)
    requires fs != [] && DistinctNames(fs) && HasFields(fs, d) && HasFields(fs, s)
    ensures var after := MergeField(zs, fs[0], d, s, mt).dst;
      && DistinctNames(fs[1..]) && HasFields(fs[1..], after) && HasFields(fs[1..], s)
      && forall i :: 0 < i < |fs| ==> FieldResult(zs, fs[i], d, s, mt) == FieldResult(zs, fs[i], after, s, mt)
  {
    HeadOfDistinct(fs);
  }

  /** The loop succeeds if every field does. */
  lemma {:induction false} SucceedsIfAll(zs: Zeros, fs: seq<FieldSpec>, d: Fields, s: Fields, mt: MergeType)
    requires DistinctNames(fs) && HasFields(fs, d) && HasFields(fs, s)
    requires forall i :: 0 <= i < |fs| ==> FieldResult(zs, fs[i], d, s, mt).err == NoErr
    ensures MergeFields(zs, fs, d, s, mt).err == NoErr
    decreases |fs|
  {
    if fs != [] {
      var r := MergeField(zs, fs[0], d, s, mt);
      assert r.err == FieldResult(zs, fs[0], d, s, mt).err;
      TailResults(zs, fs, d, s, mt);
      forall i | 0 <= i < |fs[1..]| ensures FieldResult(zs, fs[1..][i], r.dst, s, mt).err == NoErr {
        assert fs[1..][i] == fs[i + 1];
      }
      SucceedsIfAll(zs, fs[1..], r.dst, s, mt);
    }
  }

  /** If the loop succeeds, so does every field, and the result is the pointwise
      merge. */
  lemma {:induction false} AllSucceedIf(zs: Zeros, fs: seq<FieldSpec>, d: Fields, s: Fields, mt: MergeType)
    requires DistinctNames(fs) && HasFields(fs, d) && HasFields(fs, s)
    requires MergeFields(zs, fs, d, s, mt).err == NoErr
    ensures MergeFields(zs, fs, d, s, mt).dst.Keys == d.Keys
    ensures forall i :: 0 <= i < |fs| ==> Succeeds(zs, fs[i], d, s, mt, MergeFields(zs, fs, d, s, mt).dst)
    decreases |fs|
  {
    Frame(zs, fs, d, s, mt);
    if fs != [] {
      var r := MergeField(zs, fs[0], d, s, mt);
      assert r.err == FieldResult(zs, fs[0], d, s, mt).err;
      TailResults(zs, fs, d, s, mt);
      HeadOfDistinct(fs);
      AllSucceedIf(zs, fs[1..], r.dst, s, mt);
      Frame(zs, fs[1..], r.dst, s, mt);
      forall i | 0 < i < |fs| ensures Succeeds(zs, fs[i], d, s, mt, MergeFields(zs, fs, d, s, mt).dst) {
        assert fs[1..][i - 1] == fs[i];
        assert Succeeds(zs, fs[1..][i - 1], r.dst, s, mt, MergeFields(zs, fs[1..], r.dst, s, mt).dst);
      }
    }
  }

  /** The loop succeeds exactly when every field does, and then it is the
      pointwise merge. */
  lemma Pointwise(zs: Zeros, fs: seq<FieldSpec>, d: Fields, s: Fields, mt: MergeType)
    requires DistinctNames(fs) && HasFields(fs, d) && HasFields(fs, s)
    ensures MergeFields(zs, fs, d, s, mt).dst.Keys == d.Keys
    ensures MergeFields(zs, fs, d, s, mt).err == NoErr ==>
      forall i :: 0 <= i < |fs| ==> Succeeds(zs, fs[i], d, s, mt, MergeFields(zs, fs, d, s, mt).dst)
    ensures (forall i :: 0 <= i < |fs| ==> FieldResult(zs, fs[i], d, s, mt).err == NoErr) ==>
      MergeFields(zs, fs, d, s, mt).err == NoErr
  {
    Frame(zs, fs, d, s, mt);
    if MergeFields(zs, fs, d, s, mt).err == NoErr {
      AllSucceedIf(zs, fs, d, s, mt);
    } else if forall i :: 0 <= i < |fs| ==> FieldResult(zs, fs[i], d, s, mt).err == NoErr {
      SucceedsIfAll(zs, fs, d, s, mt);
    }
  }

  /** With the change flag down, every field is as it was or was merged without
      raising the flag. */
  lemma {:induction false} FlagDown(zs: Zeros, fs: seq<FieldSpec>, d: Fields, s: Fields, mt: MergeType)
    requires DistinctNames(fs) && HasFields(fs, d) && HasFields(fs, s)
    requires !MergeFields(zs, fs, d, s, mt).chg
    ensures MergeFields(zs, fs, d, s, mt).dst.Keys == d.Keys
    ensures forall i :: 0 <= i < |fs| ==> var after := MergeFields(zs, fs, d, s, mt).dst;
      after[fs[i].name] == d[fs[i].name] || Quiet(zs, fs[i], d, s, mt, after)
    decreases |fs|
  {
    Frame(zs, fs, d, s, mt);
    if fs != [] {
      var r := MergeField(zs, fs[0], d, s, mt);
      if r.err == NoErr {
        TailResults(zs, fs, d, s, mt);
        HeadOfDistinct(fs);
        FlagDown(zs, fs[1..], r.dst, s, mt);
        Frame(zs, fs[1..], r.dst, s, mt);
        var t := MergeFields(zs, fs[1..], r.dst, s, mt);
        forall i | 0 < i < |fs| ensures t.dst[fs[i].name] == d[fs[i].name] || Quiet(zs, fs[i], d, s, mt, t.dst) {
          assert fs[1..][i - 1] == fs[i];
        }
      }
    }
  }

  /** The first field is merged first and not touched again. */
  lemma HeadIsMerged(zs: Zeros, fs: seq<FieldSpec>, d: Fields, s: Fields, mt: MergeType)
    requires fs != [] && DistinctNames(fs) && HasFields(fs, d) && HasFields(fs, s)
    ensures MergeFields(zs, fs, d, s, mt).dst.Keys == d.Keys
    ensures MergeFields(zs, fs, d, s, mt).dst[fs[0].name] == FieldResult(zs, fs[0], d, s, mt).val
    ensures MergeField(zs, fs[0], d, s, mt).chg == FieldResult(zs, fs[0], d, s, mt).chg
  {
    Frame(zs, fs, d, s, mt);
    var r := MergeField(zs, fs[0], d, s, mt);
    HeadOfDistinct(fs);
    Frame(zs, fs[1..], r.dst, s, mt);
  }

  /** With the change flag up, some field raised it and holds what it wrote. */
  lemma {:induction false} FlagUp(zs: Zeros, fs: seq<FieldSpec>, d: Fields, s: Fields, mt: MergeType) returns (i: nat)
    requires DistinctNames(fs) && HasFields(fs, d) && HasFields(fs, s)
    requires MergeFields(zs, fs, d, s, mt).chg
    ensures MergeFields(zs, fs, d, s, mt).dst.Keys == d.Keys
    ensures i < |fs| && Raised(zs, fs[i], d, s, mt, MergeFields(zs, fs, d, s, mt).dst)
    decreases |fs|
  {
    HeadIsMerged(zs, fs, d, s, mt);
    var r := MergeField(zs, fs[0], d, s, mt);
    i := 0;
    if !r.chg {
      TailResults(zs, fs, d, s, mt);
      var j := FlagUp(zs, fs[1..], r.dst, s, mt);
      i := j + 1;
      assert fs[1..][j] == fs[i];
    }
  }

  predicate Quiet(zs: Zeros, f: FieldSpec, d: Fields, s: Fields, mt: MergeType, after: Fields)
    requires f.name in d && f.name in s && f.name in after
  {
    !FieldResult(zs, f, d, s, mt).chg && after[f.name] == FieldResult(zs, f, d, s, mt).val
  }

  predicate Raised(zs: Zeros, f: FieldSpec, d: Fields, s: Fields, mt: MergeType, after: Fields)
    requires f.name in d && f.name in s && f.name in after
  {
    FieldResult(zs, f, d, s, mt).chg && after[f.name] == FieldResult(zs, f, d, s, mt).val
  }

  /** The error the loop stops with is that of some field alone. */
  lemma {:induction false} ErrorOrigin(zs: Zeros, fs: seq<FieldSpec>, d: Fields, s: Fields, mt: MergeType)
    requires DistinctNames(fs) && HasFields(fs, d) && HasFields(fs, s)
    requires MergeFields(zs, fs, d, s, mt).err != NoErr
    ensures exists i :: 0 <= i < |fs| && FieldResult(zs, fs[i], d, s, mt).err == MergeFields(zs, fs, d, s, mt).err
    decreases |fs|
  {
    var r := MergeField(zs, fs[0], d, s, mt);
    assert FieldResult(zs, fs[0], d, s, mt).err == r.err;
    if r.err == NoErr {
      HeadOfDistinct(fs);
      ErrorOrigin(zs, fs[1..], r.dst, s, mt);
      var i :| 0 <= i < |fs[1..]|
        && FieldResult(zs, fs[1..][i], r.dst, s, mt).err == MergeFields(zs, fs[1..], r.dst, s, mt).err;
      assert fs[1..][i] == fs[i + 1];
      assert FieldResult(zs, fs[i + 1], d, s, mt).err == MergeFields(zs, fs, d, s, mt).err;
    }
  }

  /** The loop stops at the first field that fails: the fields up to it are
      merged, the failing one as far as it got, and the others untouched. */
  lemma {:induction false} StopsAt(zs: Zeros, fs: seq<FieldSpec>, d: Fields, s: Fields, mt: MergeType, i: nat)
    requires DistinctNames(fs) && HasFields(fs, d) && HasFields(fs, s) && i < |fs|
    requires forall j :: 0 <= j < i ==> FieldResult(zs, fs[j], d, s, mt).err == NoErr
    requires FieldResult(zs, fs[i], d, s, mt).err != NoErr
    ensures MergeFields(zs, fs, d, s, mt).dst.Keys == d.Keys
    ensures MergeFields(zs, fs, d, s, mt).err == FieldResult(zs, fs[i], d, s, mt).err
    ensures forall j :: 0 <= j < |fs| ==>
      MergeFields(zs, fs, d, s, mt).dst[fs[j].name] == if j <= i then FieldResult(zs, fs[j], d, s, mt).val else d[fs[j].name]
    decreases |fs|
  {
    HeadIsMerged(zs, fs, d, s, mt);
    var r := MergeField(zs, fs[0], d, s, mt);
    assert r.err == FieldResult(zs, fs[0], d, s, mt).err;
    if i > 0 {
      TailResults(zs, fs, d, s, mt);
      assert forall j :: 0 <= j < |fs[1..]| ==> fs[1..][j] == fs[j + 1];
      StopsAt(zs, fs[1..], r.dst, s, mt, i - 1);
      forall j | 0 < j < |fs| ensures MergeFields(zs, fs, d, s, mt).dst[fs[j].name]
        == if j <= i then FieldResult(zs, fs[j], d, s, mt).val else d[fs[j].name]
      {
        assert fs[1..][j - 1] == fs[j];
      }
    }
  }
}
