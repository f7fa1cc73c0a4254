/** The merge as it runs: one Merger per call holds the captured change flag
    and the option, and writes field after field into the destination. */
module MergerCode {
  import opened GoTypes
  import opened Merge

  /** A struct variable that can be set through reflection. */
  class Record {
    var fields: Fields

    constructor (fields: Fields)
      ensures this.fields == fields
    {
      this.fields := fields;
    }
  }

  class Merger {
    const zeros: Zeros
    const mergeType: MergeType
    var chg: bool

    constructor (zeros: Zeros, mergeType: MergeType)
      ensures this.zeros == zeros && this.mergeType == mergeType && !chg
    {
      this.zeros, this.mergeType, chg := zeros, mergeType, false;
    }

    method RequiredCheck(f: FieldSpec) returns (err: MergeError)
      ensures err == if Required(f, mergeType) then ErrRequired else NoErr
    {
      if mergeType != Create && mergeType != Update {
        return NoErr;
      }
      match mergeType
      case Create => err := if CreateRequired in f.attrs then ErrRequired else NoErr;
      case Update => err := if UpdateRequired in f.attrs then ErrRequired else NoErr;
      case _ => err := NoErr;
    }

    /** Replaces the slice in dst[f.name] unless the source is empty or has an
        element of the wrong kind. */
    method ArrayMerge(f: FieldSpec, dst: Record, items: seq<Value>) returns (err: MergeError)
      requires f.name in dst.fields && f.typ.TArray? && dst.fields[f.name].VSlice?
      modifies this`chg, dst
      ensures var r := MergeSlice(f, old(dst.fields[f.name]), items);
        && dst.fields == old(dst.fields)[f.name := r.val]
        && chg == (old(chg) || r.chg) && err == r.err
    {
      if |items| == 0 {
        return NoErr;
      }
      for i := 0 to |items|
        invariant forall j :: 0 <= j < i ==> ItemOk(f.typ.sub, items[j])
      {
        if !ItemOk(f.typ.sub, items[i]) {
          return ErrItem;
        }
      }
      chg := true;
      dst.fields := dst.fields[f.name := VSlice(items)];
      err := NoErr;
    }

    /** Replaces the map in dst[f.name], also by an empty one, if the keys are
        strings and every entry is of the right kind. */
    method MapMerge(f: FieldSpec, dst: Record, v: Value) returns (err: MergeError)
      requires f.name in dst.fields && (f.typ.TMap? || f.typ.TArray?)
      requires v.VMap? || v.VNumMap?
      requires dst.fields[f.name].VMap? || dst.fields[f.name].VNumMap?
      modifies this`chg, dst
      ensures var r := MergeMap(f, old(dst.fields[f.name]), v);
        && dst.fields == old(dst.fields)[f.name := r.val]
        && chg == (old(chg) || r.chg) && err == r.err
    {
      if f.typ.TArray? || f.typ.key != KString {
        return NoErr;
      }
      if v.VMap? {
        var todo := v.entries.Keys;
        while todo != {}
          invariant todo <= v.entries.Keys
          invariant forall k :: k in v.entries && k !in todo ==> EntryOk(f.typ.sub, v.entries[k])
          decreases |todo|
        {
          var k :| k in todo;
          if !EntryOk(f.typ.sub, v.entries[k]) {
            return ErrItem;
          }
          todo := todo - {k};
        }
      }
      if v.VMap? != dst.fields[f.name].VMap? {
        return Panics;
      }
      chg := true;
      dst.fields := dst.fields[f.name := v];
      err := NoErr;
    }

    /** Sets dst[f.name] and raises the flag when that is a change. */
    method Set(f: FieldSpec, dst: Record, x: Value)
      requires f.name in dst.fields
      modifies this`chg, dst
      ensures dst.fields == old(dst.fields)[f.name := x]
      ensures chg == (old(chg) || x != old(dst.fields[f.name]))
    {
      if dst.fields[f.name] != x {
        chg := true;
        dst.fields := dst.fields[f.name := x];
      }
    }

    /** Numbers: a non-zero source within the limits is taken, a zero one lets
        a zero destination take the default. */
    method IntMerge(f: FieldSpec, dst: Record, i: int) returns (err: MergeError)
      requires f.name in dst.fields
      modifies this`chg, dst
      ensures var r := MergeInt(f, old(dst.fields[f.name]), i, mergeType);
        && dst.fields == old(dst.fields)[f.name := r.val]
        && chg == (old(chg) || r.chg) && err == r.err
    {
      var l := IntLimits(f);
      if i != 0 && (i < l.min || i > l.max) {
        return ErrLimit;
      }
      if !dst.fields[f.name].VInt? {
        return Panics;
      }
      if i != 0 {
        Set(f, dst, VInt(i));
        err := NoErr;
      } else if dst.fields[f.name].i == 0 && l.def != 0 && l.def >= l.min && l.def <= l.max {
        Set(f, dst, VInt(l.def));
        err := NoErr;
      } else {
        err := RequiredCheck(f);
      }
    }

    method UintMerge(f: FieldSpec, dst: Record, n: nat) returns (err: MergeError)
      requires f.name in dst.fields
      modifies this`chg, dst
      ensures var r := MergeUint(f, old(dst.fields[f.name]), n, mergeType);
        && dst.fields == old(dst.fields)[f.name := r.val]
        && chg == (old(chg) || r.chg) && err == r.err
    {
      var l := UintLimits(f);
      if n != 0 && (n < l.min || n > l.max) {
        return ErrLimit;
      }
      if !dst.fields[f.name].VUint? {
        return Panics;
      }
      if n != 0 {
        Set(f, dst, VUint(n));
        err := NoErr;
      } else if dst.fields[f.name].n == 0 && l.def != 0 && l.def >= l.min && l.def <= l.max {
        if l.def < 0 {
          return Panics;
        }
        Set(f, dst, VUint(l.def));
        err := NoErr;
      } else {
        err := RequiredCheck(f);
      }
    }

    method StringMerge(f: FieldSpec, dst: Record, s: string) returns (err: MergeError)
      requires f.name in dst.fields
      modifies this`chg, dst
      ensures var r := MergeString(f, old(dst.fields[f.name]), s, mergeType);
        && dst.fields == old(dst.fields)[f.name := r.val]
        && chg == (old(chg) || r.chg) && err == r.err
    {
      if !dst.fields[f.name].VStr? {
        return ErrType;
      }
      if s != "" {
        if |f.enums| > 0 && s !in f.enums {
          return ErrEnum;
        }
        Set(f, dst, VStr(s));
        err := NoErr;
      } else {
        err := RequiredCheck(f);
      }
    }

    /** The switch on the source's kind, structs and pointers left out. */
    method LeafMerge(f: FieldSpec, dst: Record, v: Value) returns (err: MergeError)
      requires f.name in dst.fields && !IsStructLike(v)
      modifies this`chg, dst
      ensures var r := MergeLeaf(f, old(dst.fields[f.name]), v, mergeType);
        && dst.fields == old(dst.fields)[f.name := r.val]
        && chg == (old(chg) || r.chg) && err == r.err
    {
      var x := dst.fields[f.name];
      err := ErrType;
      match v
      case VBool(b) =>
        if f.typ == TBool && x.VBool? {
          Set(f, dst, v);
          err := NoErr;
        }
      case VStr(s) =>
        if f.typ == TString {
          err := StringMerge(f, dst, s);
        }
      case VInt(i) =>
        if f.typ == TInt {
          err := IntMerge(f, dst, i);
        }
      case VUint(n) =>
        if f.typ == TUint {
          err := UintMerge(f, dst, n);
        }
      case VSlice(items) =>
        if f.typ.TArray? && x.VSlice? {
          err := ArrayMerge(f, dst, items);
        }
      case VMap(_) =>
        if (f.typ.TMap? || f.typ.TArray?) && (x.VMap? || x.VNumMap?) {
          err := MapMerge(f, dst, v);
        }
      case VNumMap(_) =>
        if (f.typ.TMap? || f.typ.TArray?) && (x.VMap? || x.VNumMap?) {
          err := MapMerge(f, dst, v);
        }
      case VOther(_) =>
        err := NoErr;
    }

    /** A struct, or a pointer to one, into a field: a nil destination pointer
        is allocated even when the source is nil, and without raising the flag.
        The sub-struct is written back before an error is passed on, so that
        what was merged by then stays. */
    method StructMerge(f: FieldSpec, dst: Record, v: Value) returns (err: MergeError)
      requires f.name in dst.fields && IsStructLike(v)
      modifies this`chg, dst
      ensures var r := MergeValue(zeros, f, old(dst.fields[f.name]), v, mergeType);
        && dst.fields == old(dst.fields)[f.name := r.val]
        && chg == (old(chg) || r.chg) && err == r.err
      decreases f, 0
    {
      var x := dst.fields[f.name];
      if f.typ != TStruct || !IsStructLike(x) {
        return ErrType;
      }
      var sub := new Record(Deref(zeros, x));
      err := NoErr;
      if !v.VNil? {
        err := DataMerge(f.fields, sub, Deref(zeros, v));
      }
      dst.fields := dst.fields[f.name := Rewrap(x, sub.fields)];
    }

    /** Merges src into dst in place, field after field of the spec, and stops
        at the first error. */
    method DataMerge(fs: seq<FieldSpec>, dst: Record, src: Fields) returns (err: MergeError)
      modifies this`chg, dst
      ensures var r := MergeFields(zeros, fs, old(dst.fields), src, mergeType);
        dst.fields == r.dst && chg == (old(chg) || r.chg) && err == r.err
      decreases fs
    {
      ghost var all := MergeFields(zeros, fs, dst.fields, src, mergeType);
      ghost var before := chg;
      ghost var raised := false;
      for i := 0 to |fs|
        invariant chg == (before || raised)
        invariant var rest := MergeFields(zeros, fs[i..], dst.fields, src, mergeType);
          all == Out(rest.dst, raised || rest.chg, rest.err)
      {
        var f := fs[i];
        ghost var one := MergeField(zeros, f, dst.fields, src, mergeType);
        assert fs[i..][0] == f && fs[i..][1..] == fs[i + 1..];
        err := NoErr;
        if f.name !in src && f.tagName !in src {
          err := RequiredCheck(f);
        } else if f.name in dst.fields {
          var v := if f.name in src then src[f.name] else src[f.tagName];
          ghost var r := MergeValue(zeros, f, dst.fields[f.name], v, mergeType);
          assert one == Out(dst.fields[f.name := r.val], r.chg, r.err);
          if IsStructLike(v) {
            err := StructMerge(f, dst, v);
          } else {
            err := LeafMerge(f, dst, v);
          }
        }
        assert dst.fields == one.dst && err == one.err;
        raised := raised || one.chg;
        if err != NoErr {
          return err;
        }
      }
      err := NoErr;
    }
  }
}
