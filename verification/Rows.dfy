/** Insert, Igsert, Upsert and Delete on the rows of one table, as functions:
    what the linear scans over rows and request decide. */
module Rows {
  import opened GoTypes
  import opened Merge
  import opened MergeLaws
  import opened Decode
  import opened Paths

  datatype Mode = Raw | Igsert | Upsert

  /** A row of a query's answer: its key, its fields and its place in a sort. */
  datatype DataRow = DataRow(id: string, fields: Fields, order: int)

  /** What the caller learns. */
  datatype Outcome = Done | Conflict | Refused | FlushFailed | Found(rows: seq<DataRow>)

  /** The two lists of an insert request; the code writes into them. */
  datatype Request = Request(tags: seq<string>, values: seq<Pb>)

  /** Rows after an operation, its outcome, and whether it flushes. */
  datatype RowsOut = RowsOut(rows: seq<Value>, res: Outcome, flush: bool)

  predicate HasGenerator(f: FieldSpec) {
    exists a :: a in f.attrs && (a.RandHex? || a.ObjectId?)
  }

  // ------------------------------------------------------- reading the request

  /** The maps and the request as the first loop of insert builds them. */
  datatype Scan = Scan(values: seq<Pb>, data: map<string, Pb>, ukv: map<string, Pb>, ok: bool)

  /** One pass of the loop. A unique value without a kind is replaced in the
      request by a generated one, but not in the data to be decoded. */
  function ScanStep(uks: map<string, FieldSpec>, ids: nat -> string, tags: seq<string>, s: Scan, i: nat): Scan
    requires i < |tags| && i < |s.values|
  {
    var tag, value := tags[i], s.values[i];
    var t := s.(data := s.data[tag := value]);
    if tag !in uks then t
    else if uks[tag].typ != TString then t.(ok := false)
    else if value != Kindless then t.(ukv := s.ukv[tag := value])
    else if HasGenerator(uks[tag]) then
      t.(values := s.values[i := PString(ids(i))], ukv := s.ukv[tag := PString(ids(i))])
    else t.(ok := false)
  }

  function ScanRequest(uks: map<string, FieldSpec>, ids: nat -> string, q: Request, n: nat): (s: Scan)
    requires n <= |q.tags| == |q.values|
    ensures |s.values| == |q.values|
  {
    if n == 0 then Scan(q.values, map[], map[], true)
    else
      var s := ScanRequest(uks, ids, q, n - 1);
      if !s.ok then s else ScanStep(uks, ids, q.tags, s, n - 1)
  }

  /** The request after both loops, and what they found; ok is false when the
      operation stops here. */
  datatype Prepared = Prepared(q: Request, data: map<string, Pb>, ukv: map<string, Pb>, ok: bool)

  /** Generates a missing primary key and appends it to the request. */
  function Prepare(k: Keys, ids: nat -> string, q: Request): Prepared
    requires |q.tags| == |q.values|
  {
    var s := ScanRequest(k.uks, ids, q, |q.tags|);
    var q' := Request(q.tags, s.values);
    var tag := k.pk.tagName;
    if !s.ok then Prepared(q', s.data, s.ukv, false)
    else if tag in s.ukv then Prepared(q', s.data, s.ukv, true)
    else if tag !in s.data && HasGenerator(k.pk) then
      var id := PString(ids(|q.tags|));
      Prepared(Request(q.tags + [tag], s.values + [id]), s.data[tag := id], s.ukv[tag := id], true)
    else Prepared(q', s.data, s.ukv, false)
  }

  // ------------------------------------------------------------------ the scan

  /** The string of a field of row x; None for a nil row or another kind. */
  function Text(x: Value, name: string): Option<string> {
    match x
    case VPtr(_, target) => TextIn(target, name)
    case VStruct(fields) => TextIn(fields, name)
    case _ => None
  }

  function TextIn(v: Fields, name: string): Option<string> {
    if name in v && v[name].VStr? then Some(v[name].s) else None
  }

  /** Row x has the requested value in the unique field of tag t. */
  predicate MatchesOn(uks: map<string, FieldSpec>, ukv: map<string, Pb>, x: Value, t: string)
    requires t in uks
  {
    t in ukv && Text(x, uks[t].name) == Some(StringOf(ukv[t]))
  }

  predicate Hit(uks: map<string, FieldSpec>, ukv: map<string, Pb>, x: Value) {
    exists t :: t in uks && MatchesOn(uks, ukv, x, t)
  }

  /** The first row hit, or the number of rows. */
  function FirstHit(uks: map<string, FieldSpec>, ukv: map<string, Pb>, rows: seq<Value>): (i: nat)
    ensures i <= |rows|
    ensures i < |rows| ==> Hit(uks, ukv, rows[i])
    ensures forall j :: 0 <= j < i ==> !Hit(uks, ukv, rows[j])
  {
    if rows == [] then 0
    else if Hit(uks, ukv, rows[0]) then 0
    else 1 + FirstHit(uks, ukv, rows[1..])
  }

  /** What insert does once the request is decoded: it stops at the first row
      hit, and appends otherwise. */
  function Place(zs: Zeros, f: FieldSpec, uks: map<string, FieldSpec>, ukv: map<string, Pb>, rows: seq<Value>,
      req: Fields, mode: Mode): RowsOut
    requires f.ref.Some?
  {
    var i := FirstHit(uks, ukv, rows);
    if i < |rows| then
      match mode
      case Raw => RowsOut(rows, Conflict, false)
      case Igsert => RowsOut(rows, Done, false)
      case Upsert =>
        var r := MergeFields(zs, f.fields, Deref(zs, rows[i]), req, UnSpec);
        var rows' := rows[i := Rewrap(rows[i], r.dst)];
        if r.err != NoErr then RowsOut(rows', Refused, false) else RowsOut(rows', Done, true)
    else
      var r := MergeFields(zs, f.fields, ZeroOf(zs, f.ref.value), req, UnSpec);
      if r.err != NoErr then RowsOut(rows, Refused, false)
      else RowsOut(rows + [VPtr(f.ref.value, r.dst)], Done, true)
  }

  function DecodeRequest(zs: Zeros, f: FieldSpec, data: map<string, Pb>): Option<Fields>
    requires f.ref.Some?
  {
    DecodeRow(zs, f.fields, ZeroOf(zs, f.ref.value), data)
  }

  /** Insert, Igsert or Upsert on the rows of a table, with the request as the
      code leaves it. */
  function InsertRows(zs: Zeros, f: FieldSpec, k: Keys, ids: nat -> string, q: Request, mode: Mode, rows: seq<Value>)
    : (RowsOut, Request)
    requires f.ref.Some?
  {
    if |q.tags| == 0 || |q.tags| != |q.values| then (RowsOut(rows, Refused, false), q)
    else
      var p := Prepare(k, ids, q);
      if !p.ok then (RowsOut(rows, Refused, false), p.q)
      else
        match DecodeRequest(zs, f, p.data)
        case None => (RowsOut(rows, Refused, false), p.q)
        case Some(req) => (Place(zs, f, k.uks, p.ukv, rows, req, mode), p.q)
  }

  /** What the scan over the rows compares with and merges. */
  datatype Sought = Sought(ukv: map<string, Pb>, req: Fields)

  /** None when insert stops before the scan. */
  function Seek(zs: Zeros, f: FieldSpec, ids: nat -> string, q: Request): Option<Sought>
    requires KeysOf(f).Some? && f.ref.Some?
  {
    if |q.tags| == 0 || |q.tags| != |q.values| then None
    else
      var p := Prepare(KeysOf(f).value, ids, q);
      if !p.ok || DecodeRequest(zs, f, p.data).None? then None
      else Some(Sought(p.ukv, DecodeRequest(zs, f, p.data).value))
  }

  lemma InsertIsPlace(zs: Zeros, f: FieldSpec, ids: nat -> string, q: Request, mode: Mode, rows: seq<Value>)
    requires KeysOf(f).Some? && f.ref.Some?
    ensures InsertRows(zs, f, KeysOf(f).value, ids, q, mode, rows).0 ==
      match Seek(zs, f, ids, q) {
        case None => RowsOut(rows, Refused, false)
        case Some(s) => Place(zs, f, KeysOf(f).value.uks, s.ukv, rows, s.req, mode)
      }
  {
  }

  // -------------------------------------------------------------------- delete

  /** The white space that TrimSpace removes. */
  predicate IsSpace(c: char) {
    || '\t' <= c <= '\r' || c == ' ' || c as int == 0x85 || c as int == 0xA0 || c as int == 0x1680
    || 0x2000 <= c as int <= 0x200A || c as int == 0x2028 || c as int == 0x2029
    || c as int == 0x202F || c as int == 0x205F || c as int == 0x3000
  }

  predicate Blank(s: string) {
    forall i :: 0 <= i < |s| ==> IsSpace(s[i])
  }

  /** The code points of Unicode white space. */
  const WHITE: set<int> := {
    0x09, 0x0A, 0x0B, 0x0C, 0x0D, 0x20, 0x85, 0xA0, 0x1680,
    0x2000, 0x2001, 0x2002, 0x2003, 0x2004, 0x2005, 0x2006, 0x2007, 0x2008, 0x2009, 0x200A,
    0x2028, 0x2029, 0x202F, 0x205F, 0x3000
  }

  predicate AllWhite(s: string) {
    forall i :: 0 <= i < |s| ==> s[i] as int in WHITE
  }

  lemma SpaceIsWhite(c: char)
    ensures IsSpace(c) <==> c as int in WHITE
  {
  }

  /** A key is blank exactly if it holds white space only. */
  lemma BlankIff(s: string)
    ensures Blank(s) <==> AllWhite(s)
  {
    forall i | 0 <= i < |s| ensures IsSpace(s[i]) <==> s[i] as int in WHITE {
      SpaceIsWhite(s[i]);
    }
  }

  /** One condition of a delete request: a field and perhaps a value. */
  datatype Condition = Condition(field: string, value: Option<Pb>)

  /** The key a delete request names: the last value given for the primary key.
      None when there is none, or one of them is blank or not for a string. */
  function DeleteKey(pk: FieldSpec, conds: seq<Condition>): Option<Option<string>> {
    if conds == [] then Some(None)
    else
      var front, c := DeleteKey(pk, conds[..|conds| - 1]), conds[|conds| - 1];
      if front.None? || c.value.None? || c.field != pk.tagName then front
      else if pk.typ != TString || Blank(StringOf(c.value.value)) then None
      else Some(Some(StringOf(c.value.value)))
  }

  predicate OnKey(pk: FieldSpec, c: Condition) {
    c.value.Some? && c.field == pk.tagName
  }

  predicate IsLastOnKey(pk: FieldSpec, conds: seq<Condition>, i: int)
    requires 0 <= i < |conds|
  {
    OnKey(pk, conds[i]) && forall j :: i < j < |conds| ==> !OnKey(pk, conds[j])
  }

  predicate BadCondition(pk: FieldSpec, c: Condition) {
    OnKey(pk, c) && (pk.typ != TString || !c.value.value.PString? || AllWhite(c.value.value.s))
  }

  /** A delete request is refused when a condition on the key is blank or the key
      is not a string, and only then. */
  lemma {:induction false} DeleteRefusedIff(pk: FieldSpec, conds: seq<Condition>)
    ensures DeleteKey(pk, conds).None? <==> exists i :: 0 <= i < |conds| && BadCondition(pk, conds[i])
    decreases |conds|
  {
    if conds != [] {
      var front, last := conds[..|conds| - 1], conds[|conds| - 1];
      DeleteRefusedIff(pk, front);
      assert forall i :: 0 <= i < |front| ==> front[i] == conds[i];
      if OnKey(pk, last) {
        BlankIff(StringOf(last.value.value));
      }
      assert DeleteKey(pk, conds).None? <==> DeleteKey(pk, front).None? || BadCondition(pk, last);
    }
  }

  /** Otherwise it names the key of its last condition on the key, if any. */
  lemma {:induction false} DeleteNamesLast(pk: FieldSpec, conds: seq<Condition>)
    requires DeleteKey(pk, conds).Some?
    ensures match DeleteKey(pk, conds).value {
        case None => forall i :: 0 <= i < |conds| ==> !OnKey(pk, conds[i])
        case Some(key) => exists i :: 0 <= i < |conds| && IsLastOnKey(pk, conds, i) && conds[i].value == Some(PString(key))
      }
    decreases |conds|
  {
    if conds != [] {
      var n := |conds| - 1;
      var front := conds[..n];
      if OnKey(pk, conds[n]) {
        assert IsLastOnKey(pk, conds, n);
      } else {
        DeleteNamesLast(pk, front);
        if DeleteKey(pk, front).value.Some? {
          var i :| 0 <= i < |front| && IsLastOnKey(pk, front, i)
            && front[i].value == Some(PString(DeleteKey(pk, front).value.value));
          assert IsLastOnKey(pk, conds, i);
        }
      }
    }
  }

  /** A blank key cannot be named. */
  lemma {:induction false} NamedIsNotBlank(pk: FieldSpec, conds: seq<Condition>)
    ensures DeleteKey(pk, conds).Some? && DeleteKey(pk, conds).value.Some? ==> !AllWhite(DeleteKey(pk, conds).value.value)
    decreases |conds|
  {
    if conds != [] {
      if conds[|conds| - 1].value.Some? {
        BlankIff(StringOf(conds[|conds| - 1].value.value));
      }
      NamedIsNotBlank(pk, conds[..|conds| - 1]);
    }
  }

  /** The first row with the key, or the number of rows. */
  function FirstWithKey(name: string, key: string, rows: seq<Value>): (i: nat)
    ensures i <= |rows|
    ensures i < |rows| ==> Text(rows[i], name) == Some(key)
    ensures forall j :: 0 <= j < i ==> Text(rows[j], name) != Some(key)
  {
    if rows == [] then 0
    else if Text(rows[0], name) == Some(key) then 0
    else 1 + FirstWithKey(name, key, rows[1..])
  }

  function DeleteRows(pk: FieldSpec, conds: seq<Condition>, rows: seq<Value>): RowsOut {
    match DeleteKey(pk, conds)
    case None => RowsOut(rows, Refused, false)
    case Some(None) => RowsOut(rows, Refused, false)
    case Some(Some(key)) =>
      var i := FirstWithKey(pk.name, key, rows);
      if i < |rows| then RowsOut(rows[..i] + rows[i + 1..], Done, true) else RowsOut(rows, Done, false)
  }

  // --------------------------------------------------- what the merge does to keys

  /** The key that a request names is unambiguous when all its conditions on the
      key hold a visible character; then the row that has that key goes, and no
      other. */
  lemma VisibleKeyIsDeleted(pk: FieldSpec, conds: seq<Condition>, rows: seq<Value>, c: nat, key: string, j: nat)
    requires pk.typ == TString && c < |conds| && IsLastOnKey(pk, conds, c) && conds[c].value == Some(PString(key))
    requires forall i :: 0 <= i < |conds| && OnKey(pk, conds[i]) ==>
      conds[i].value.value.PString? && HasVisible(conds[i].value.value.s)
    requires j <= |rows| && (j < |rows| ==> Text(rows[j], pk.name) == Some(key))
    requires forall i :: 0 <= i < j ==> Text(rows[i], pk.name) != Some(key)
    ensures DeleteRows(pk, conds, rows) ==
      if j < |rows| then RowsOut(rows[..j] + rows[j + 1..], Done, true) else RowsOut(rows, Done, false)
  {
    DeleteRefusedIff(pk, conds);
    DeleteNamesLast(pk, conds);
    forall i | 0 <= i < |conds| ensures !BadCondition(pk, conds[i]) {
      if OnKey(pk, conds[i]) {
        VisibleIsNotWhite(conds[i].value.value.s);
      }
    }
    assert DeleteKey(pk, conds) == Some(Some(key));
  }

  predicate HasVisible(s: string) {
    exists i :: 0 <= i < |s| && '!' <= s[i] <= '~'
  }

  lemma VisibleIsNotWhite(s: string)
    requires HasVisible(s)
    ensures !AllWhite(s)
  {
    var i :| 0 <= i < |s| && '!' <= s[i] <= '~';
    assert s[i] as int !in WHITE;
  }

  /** A string field of a merge result is the source's if that is not empty and
      the merge gets there, and the destination's otherwise. */
  lemma StringFieldAfterMerge(zs: Zeros, fs: seq<FieldSpec>, d: Fields, s: Fields, i: nat)
    requires SpecOk(zs, fs) && Shaped(zs, fs, d) && Shaped(zs, fs, s) && i < |fs| && fs[i].typ == TString
    ensures var r := MergeFields(zs, fs, d, s, UnSpec); var name := fs[i].name;
      && name in d && name in s && name in r.dst && d[name].VStr? && s[name].VStr?
      && r.dst[name] == (if s[name].s != "" && Reached(fs, s, i) then s[name] else d[name])
      && (r.err == NoErr ==> Reached(fs, s, i))
  {
    assert ShapedValue(zs, fs[i], d[fs[i].name]) && ShapedValue(zs, fs[i], s[fs[i].name]);
    FieldAfterMerge(zs, fs, d, s, UnSpec, i);
  }
}
