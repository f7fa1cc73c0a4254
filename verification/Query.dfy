/** Filters built by callers and the rows a query selects. */
module Query {
  import opened GoTypes
  import opened Names
  import opened Paths
  import opened Rows
  import opened KeyedMap

  /** A condition on a field, or a list of conditions. */
  datatype Filter = Filter(field: string, value: Pb, inner: seq<Filter>)

  /** A field and the value asked for. */
  datatype Ask = Ask(field: string, value: Pb)

  /** The field to sort by and the direction. */
  datatype Sort = Sort(field: string, descending: bool)

  function SortField(sort: Option<Sort>): string {
    match sort
    case None => ""
    case Some(order) => order.field
  }

  // ---------------------------------------------------------- building filters

  const EMPTY_FILTER := Filter("", Null, [])

  function Leaf(ask: Ask): Filter {
    Filter(ask.field, ask.value, [])
  }

  /** addFilter on the filter of a query. */
  function Add(filter: Option<Filter>, ask: Ask): Filter {
    var fr := Leaf(ask);
    match filter
    case None => fr
    case Some(root) =>
      if root.inner == [] then Filter("", Null, [root, fr]) else root.(inner := root.inner + [fr])
  }

  function And(filter: Filter, ask: Ask): Filter {
    filter.(inner := filter.inner + [Leaf(ask)])
  }

  /** One call that extends a filter: q.AddFilter or q.Filter.And. */
  datatype Call = ByAdd(ask: Ask) | ByAnd(ask: Ask)

  /** The filter after some calls. And needs a filter to begin with. */
  function Built(root: Option<Filter>, calls: seq<Call>): (filter: Option<Filter>)
    requires root.None? && calls != [] ==> calls[0].ByAdd?
    ensures root.Some? || calls != [] ==> filter.Some?
    decreases |calls|
  {
    if calls == [] then root
    else
      match calls[0]
      case ByAdd(ask) => Built(Some(Add(root, ask)), calls[1..])
      case ByAnd(ask) => Built(Some(And(root.value, ask)), calls[1..])
  }

  function Asks(calls: seq<Call>): (asks: seq<Ask>)
    ensures |asks| == |calls|
  {
    seq(|calls|, i requires 0 <= i < |calls| => calls[i].ask)
  }

  class DataQuery {
    var tableName: string
    var filter: Option<Filter>
    var sort: Option<Sort>
    var limit: int

    constructor (tableName: string)
      ensures this.tableName == tableName && filter == None && sort == None && limit == 0
    {
      this.tableName, filter, sort, limit := tableName, None, None, 0;
    }

    method AddFilter(ask: Ask)
      modifies this`filter
      ensures filter == Some(Add(old(filter), ask))
    {
      var fr := Filter(ask.field, ask.value, []);
      if filter == None {
        filter := Some(fr);
      } else if |filter.value.inner| == 0 {
        filter := Some(Filter("", Null, [filter.value, fr]));
      } else {
        filter := Some(filter.value.(inner := filter.value.inner + [fr]));
      }
    }

    /** q.Filter.And */
    method AndFilter(ask: Ask)
      requires filter.Some?
      modifies this`filter
      ensures filter == Some(And(old(filter.value), ask))
    {
      filter := Some(filter.value.(inner := filter.value.inner + [Filter(ask.field, ask.value, [])]));
    }
  }

  // ------------------------------------------------------- reading the filters

  /** Field specs by tag. */
  function Index(fs: seq<FieldSpec>): map<string, FieldSpec> {
    if fs == [] then map[] else Index(fs[..|fs| - 1])[fs[|fs| - 1].tagName := fs[|fs| - 1]]
  }

  predicate Known(fs: seq<FieldSpec>, field: string) {
    Lower(field) in Index(fs)
  }

  /** One condition into the map of tests; only string fields are tested. */
  function Test(fs: seq<FieldSpec>, tests: map<string, Pb>, field: string, value: Pb): map<string, Pb>
    requires Known(fs, field)
  {
    var f := Index(fs)[Lower(field)];
    if f.typ == TString then tests[f.name := value] else tests
  }

  function TestsOf(fs: seq<FieldSpec>, inner: seq<Filter>): Option<map<string, Pb>> {
    if inner == [] then Some(map[])
    else
      var front, fr := TestsOf(fs, inner[..|inner| - 1]), inner[|inner| - 1];
      if front.None? || !Known(fs, fr.field) then None else Some(Test(fs, front.value, fr.field, fr.value))
  }

  /** The tests a query makes, by field name; None for an unknown field. */
  function FilterTests(fs: seq<FieldSpec>, filter: Option<Filter>): Option<map<string, Pb>> {
    match filter
    case None => Some(map[])
    case Some(fr) =>
      if |fr.field| > 0 then
        if Known(fs, fr.field) then Some(Test(fs, map[], fr.field, fr.value)) else None
      else TestsOf(fs, fr.inner)
  }

  predicate AllKnown(fs: seq<FieldSpec>, asks: seq<Ask>) {
    forall i :: 0 <= i < |asks| ==> Known(fs, asks[i].field)
  }

  /** The last value asked for each string field. */
  function LastAsked(fs: seq<FieldSpec>, asks: seq<Ask>): map<string, Pb>
    requires AllKnown(fs, asks)
  {
    if asks == [] then map[]
    else Test(fs, LastAsked(fs, asks[..|asks| - 1]), asks[|asks| - 1].field, asks[|asks| - 1].value)
  }

  /** The field a condition is about. */
  function Target(fs: seq<FieldSpec>, ask: Ask): FieldSpec
    requires Known(fs, ask.field)
  {
    Index(fs)[Lower(ask.field)]
  }

  /** The last value asked for a field is the one tested. */
  lemma {:induction false} LastAskedIsLast(fs: seq<FieldSpec>, asks: seq<Ask>, i: nat)
    requires AllKnown(fs, asks)
    requires i < |asks| && Target(fs, asks[i]).typ == TString
    requires forall j :: i < j < |asks| ==> Target(fs, asks[j]).name != Target(fs, asks[i]).name
    ensures Target(fs, asks[i]).name in LastAsked(fs, asks)
    ensures LastAsked(fs, asks)[Target(fs, asks[i]).name] == asks[i].value
    decreases |asks|
  {
    if i < |asks| - 1 {
      var front := asks[..|asks| - 1];
      assert front[i] == asks[i];
      LastAskedIsLast(fs, front, i);
    }
  }

  /** And nothing else is tested. */
  lemma {:induction false} OnlyAskedIsTested(fs: seq<FieldSpec>, asks: seq<Ask>, name: string)
    requires AllKnown(fs, asks)
    ensures name in LastAsked(fs, asks) <==>
      exists i :: 0 <= i < |asks| && Target(fs, asks[i]).typ == TString && Target(fs, asks[i]).name == name
    decreases |asks|
  {
    if asks != [] {
      var front, last := asks[..|asks| - 1], asks[|asks| - 1];
      OnlyAskedIsTested(fs, front, name);
      assert forall i :: 0 <= i < |front| ==> front[i] == asks[i];
      assert LastAsked(fs, asks) == Test(fs, LastAsked(fs, front), last.field, last.value);
      if name in LastAsked(fs, asks) && name !in LastAsked(fs, front) {
        assert asks[|asks| - 1] == last;
      }
    }
  }

  /** What these conditions amount to: an error if a field is unknown. */
  function Asked(fs: seq<FieldSpec>, asks: seq<Ask>): Option<map<string, Pb>> {
    if AllKnown(fs, asks) then Some(LastAsked(fs, asks)) else None
  }

  /** The inner list that holds these conditions. */
  function Conditions(asks: seq<Ask>): (inner: seq<Filter>)
    ensures |inner| == |asks|
  {
    seq(|asks|, i requires 0 <= i < |asks| => Leaf(asks[i]))
  }

  lemma {:induction false} ConditionTests(fs: seq<FieldSpec>, asks: seq<Ask>)
    ensures TestsOf(fs, Conditions(asks)) == Asked(fs, asks)
    decreases |asks|
  {
    if asks != [] {
      var n := |asks| - 1;
      ConditionTests(fs, asks[..n]);
      assert Conditions(asks)[..n] == Conditions(asks[..n]);
      assert AllKnown(fs, asks) <==> AllKnown(fs, asks[..n]) && Known(fs, asks[n].field) by {
        assert forall i :: 0 <= i < n ==> asks[..n][i] == asks[i];
      }
    }
  }

  lemma OneConditionTests(fs: seq<FieldSpec>, ask: Ask, inner: seq<Filter>)
    requires ask.field != ""
    ensures FilterTests(fs, Some(Filter(ask.field, ask.value, inner))) == Asked(fs, [ask])
  {
    assert AllKnown(fs, [ask]) <==> Known(fs, [ask][0].field);
    if Known(fs, ask.field) {
      assert [ask][..0] == [] && LastAsked(fs, [ask]) == Test(fs, map[], ask.field, ask.value);
    }
  }

  lemma {:induction false} PeelConditions(calls: seq<Call>)
    requires calls != []
    ensures Conditions(Asks(calls)) == [Leaf(calls[0].ask)] + Conditions(Asks(calls[1..]))
  {
  }

  /** Once the inner list is not empty, both calls append to it. */
  lemma {:induction false} CallsAppend(root: Filter, calls: seq<Call>)
    requires root.inner != []
    ensures Built(Some(root), calls) == Some(Filter(root.field, root.value, root.inner + Conditions(Asks(calls))))
    decreases |calls|
  {
    if calls != [] {
      var inner := root.inner + [Leaf(calls[0].ask)];
      CallsAppend(Filter(root.field, root.value, inner), calls[1..]);
      PeelConditions(calls);
      assert inner + Conditions(Asks(calls[1..])) == root.inner + Conditions(Asks(calls));
    } else {
      assert root.inner + Conditions(Asks(calls)) == root.inner;
    }
  }

  /** What calls on a new query make of its filter: the conditions are listed if
      the second call is AddFilter; otherwise the first one stays on top, with
      the others inside. */
  lemma {:induction false} NewQueryFilter(calls: seq<Call>)
    requires calls != [] && calls[0].ByAdd?
    ensures var first := calls[0].ask;
      Built(None, calls) == Some(
        if |calls| > 1 && calls[1].ByAdd? then Filter("", Null, Conditions(Asks(calls)))
        else Filter(first.field, first.value, Conditions(Asks(calls[1..]))))
  {
    var first, rest := Leaf(calls[0].ask), calls[1..];
    PeelConditions(calls);
    if rest != [] {
      var second := Leaf(rest[0].ask);
      PeelConditions(rest);
      if rest[0].ByAdd? {
        CallsAppend(Filter("", Null, [first, second]), rest[1..]);
        assert [first, second] + Conditions(Asks(rest[1..])) == Conditions(Asks(calls));
      } else {
        assert And(first, rest[0].ask).inner == [second];
        CallsAppend(Filter(first.field, first.value, [second]), rest[1..]);
      }
    }
  }

  /** On a new query, with AddFilter first and then any calls in any order: all
      conditions are asked, the last value for each string field, if the second
      call is AddFilter too. If it is And, or there is none, the first condition
      alone is asked and everything after it ignored, AddFilter included. (A first
      condition without a field is the other way round: ignored itself.) */
  lemma {:induction false} NewQueryTests(fs: seq<FieldSpec>, calls: seq<Call>)
    requires calls != [] && calls[0].ByAdd?
    ensures FilterTests(fs, Built(None, calls)) ==
      if |calls| > 1 && calls[1].ByAdd? then Asked(fs, Asks(calls))
      else if calls[0].ask.field != "" then Asked(fs, [calls[0].ask])
      else Asked(fs, Asks(calls[1..]))
  {
    NewQueryFilter(calls);
    ConditionTests(fs, Asks(calls));
    ConditionTests(fs, Asks(calls[1..]));
    if calls[0].ask.field != "" {
      OneConditionTests(fs, calls[0].ask, Conditions(Asks(calls[1..])));
    }
  }

  /** The same on an empty filter set by the caller. */
  lemma {:induction false} EmptyFilterFilter(calls: seq<Call>)
    requires calls != []
    ensures Built(Some(EMPTY_FILTER), calls) == Some(Filter("", Null,
      (if calls[0].ByAnd? then [] else [EMPTY_FILTER]) + Conditions(Asks(calls))))
  {
    var one := Leaf(calls[0].ask);
    var inner := if calls[0].ByAnd? then [one] else [EMPTY_FILTER, one];
    PeelConditions(calls);
    assert And(EMPTY_FILTER, calls[0].ask).inner == [one];
    CallsAppend(Filter("", Null, inner), calls[1..]);
    assert inner + Conditions(Asks(calls[1..]))
      == (if calls[0].ByAnd? then [] else [EMPTY_FILTER]) + Conditions(Asks(calls));
  }

  lemma {:induction false} NamelessFirst(asks: seq<Ask>)
    ensures Conditions([Ask("", Null)] + asks) == [EMPTY_FILTER] + Conditions(asks)
  {
  }

  /** All conditions are asked if the first call on it is And; AddFilter first
      makes the empty filter itself a condition, on a field without a name. */
  lemma {:induction false} EmptyFilterTests(fs: seq<FieldSpec>, calls: seq<Call>)
    ensures FilterTests(fs, Built(Some(EMPTY_FILTER), calls)) ==
      if calls == [] || calls[0].ByAnd? then Asked(fs, Asks(calls)) else Asked(fs, [Ask("", Null)] + Asks(calls))
  {
    if calls != [] {
      EmptyFilterFilter(calls);
      if calls[0].ByAnd? {
        ConditionTests(fs, Asks(calls));
        assert [] + Conditions(Asks(calls)) == Conditions(Asks(calls));
      } else {
        NamelessFirst(Asks(calls));
        ConditionTests(fs, [Ask("", Null)] + Asks(calls));
      }
    }
  }

  /** In particular AddFilter alone on a new query, and And alone on an empty
      filter, ask all conditions. */
  lemma {:induction false} BuiltFilterTests(fs: seq<FieldSpec>, calls: seq<Call>)
    requires calls != [] && calls[0].ask.field != ""
    ensures (forall i :: 0 <= i < |calls| ==> calls[i].ByAdd?) ==>
      FilterTests(fs, Built(None, calls)) == Asked(fs, Asks(calls))
    ensures (forall i :: 0 <= i < |calls| ==> calls[i].ByAnd?) ==>
      FilterTests(fs, Built(Some(EMPTY_FILTER), calls)) == Asked(fs, Asks(calls))
  {
    var first := [calls[0].ask];
    assert |calls| == 1 ==> Asks(calls) == first;
    EmptyFilterTests(fs, calls);
    if calls[0].ByAdd? {
      NewQueryTests(fs, calls);
    }
  }

  /** A built filter has no nesting below its inner list. */
  lemma {:induction false} BuiltFilterIsFlat(root: Option<Filter>, calls: seq<Call>)
    requires root == Some(EMPTY_FILTER) || (root == None && calls != [] && calls[0].ByAdd?)
    ensures forall i :: 0 <= i < |Built(root, calls).value.inner| ==> Built(root, calls).value.inner[i].inner == []
  {
    if root.None? {
      NewQueryFilter(calls);
    } else if calls != [] {
      EmptyFilterFilter(calls);
    }
  }

  // ------------------------------------------------------------ selecting rows

  predicate Passes(tests: map<string, Pb>, x: Value) {
    (x.VPtr? || x.VStruct?) && forall name :: name in tests ==> PassesOne(tests, x, name)
  }

  predicate PassesOne(tests: map<string, Pb>, x: Value, name: string)
    requires name in tests
  {
    tests[name].PString? && Text(x, name) == Some(tests[name].s)
  }

  /** The rows that pass, in storage order. */
  function Passing(tests: map<string, Pb>, rows: seq<Value>): (r: seq<Value>)
    ensures forall i :: 0 <= i < |r| ==> Passes(tests, r[i])
  {
    if rows == [] then []
    else
      Passing(tests, rows[..|rows| - 1]) + (if Passes(tests, rows[|rows| - 1]) then [rows[|rows| - 1]] else [])
  }

  function RowLimit(limit: int): nat {
    if limit == 0 then 10 else if limit < 0 then 0 else limit
  }

  function Take<T>(s: seq<T>, n: nat): seq<T> {
    if |s| <= n then s else s[..n]
  }

  /** The number in the field with the given tag, if positive. */
  function OrderOf(fs: seq<FieldSpec>, sortField: string, v: Fields): int {
    if sortField == "" then 0
    else
      match FirstTag(fs, sortField)
      case None => 0
      case Some(f) =>
        if f.name !in v then 0
        else if v[f.name].VInt? && v[f.name].i > 0 then v[f.name].i
        else if v[f.name].VUint? then v[f.name].n
        else 0
  }

  /** What a row counts for in a sort on the tag: the value of the int or uint
      field with that tag if it is positive, and 0 in all other cases. */
  ghost predicate CountsFor(fs: seq<FieldSpec>, tag: string, v: Fields, n: int) {
    if tag != "" && exists k :: 0 <= k < |fs| && fs[k].tagName == tag && HasNumber(fs[k], v) then
      exists k :: 0 <= k < |fs| && fs[k].tagName == tag && HasNumber(fs[k], v) && n == NumberIn(fs[k], v)
    else n == 0
  }

  predicate HasNumber(g: FieldSpec, v: Fields) {
    g.name in v && ((v[g.name].VInt? && v[g.name].i > 0) || (v[g.name].VUint? && v[g.name].n > 0))
  }

  function NumberIn(g: FieldSpec, v: Fields): int
    requires HasNumber(g, v)
  {
    if v[g.name].VInt? then v[g.name].i else v[g.name].n
  }

  lemma OrderCounts(fs: seq<FieldSpec>, tag: string, v: Fields)
    requires DistinctTags(fs)
    ensures CountsFor(fs, tag, v, OrderOf(fs, tag, v))
  {
    if k :| 0 <= k < |fs| && fs[k].tagName == tag {
      FirstTagIs(fs, tag, k);
    }
  }

  /** Every row counts for no more than the ones after it, or no less. */
  ghost predicate SortedBy(fs: seq<FieldSpec>, sort: Sort, rows: seq<DataRow>) {
    forall i, j, m, n :: (0 <= i < j < |rows| && CountsFor(fs, sort.field, rows[i].fields, m)
                          && CountsFor(fs, sort.field, rows[j].fields, n))
      ==> if sort.descending then m >= n else m <= n
  }

  lemma CountsForOne(fs: seq<FieldSpec>, tag: string, v: Fields, m: int, n: int)
    requires DistinctTags(fs) && CountsFor(fs, tag, v, m) && CountsFor(fs, tag, v, n)
    ensures m == n
  {
  }

  /** Rows in the order of their numbers are sorted by the field asked for. */
  lemma OrderedIsSorted(fs: seq<FieldSpec>, sort: Sort, tests: map<string, Pb>, limit: int, rows: seq<Value>, out: seq<DataRow>)
    requires DistinctTags(fs) && Ordered(sort.descending, out)
    requires multiset(out) == multiset(Selected(fs, tests, sort.field, limit, rows))
    ensures SortedBy(fs, sort, out)
  {
    var found := Selected(fs, tests, sort.field, limit, rows);
    forall i | 0 <= i < |out| ensures CountsFor(fs, sort.field, out[i].fields, out[i].order) {
      assert out[i] in multiset(out) && out[i] in found;
      OrderCounts(fs, sort.field, out[i].fields);
    }
    forall i, j, m, n | 0 <= i < j < |out| && CountsFor(fs, sort.field, out[i].fields, m)
      && CountsFor(fs, sort.field, out[j].fields, n) ensures if sort.descending then m >= n else m <= n
    {
      CountsForOne(fs, sort.field, out[i].fields, m, out[i].order);
      CountsForOne(fs, sort.field, out[j].fields, n, out[j].order);
    }
  }

  function IdOf(fs: seq<FieldSpec>, v: Fields): string {
    if |PrimaryFields(fs)| != 1 then ""
    else
      match TextIn(v, PrimaryFields(fs)[0].name)
      case Some(s) => s
      case None => ""
  }

  function RowOf(fs: seq<FieldSpec>, sortField: string, x: Value): DataRow
    requires x.VPtr? || x.VStruct?
  {
    DataRow(IdOf(fs, StructOf(x)), StructOf(x), OrderOf(fs, sortField, StructOf(x)))
  }

  /** A row of the answer holds the fields of the struct it stands for, and the
      string of its one primary field as its key. */
  lemma RowHolds(fs: seq<FieldSpec>, sortField: string, rt: GoType, v: Fields, pk: FieldSpec, key: string)
    ensures RowOf(fs, sortField, VPtr(rt, v)).fields == v && RowOf(fs, sortField, VStruct(v)).fields == v
    ensures OnlyPrimary(fs, pk) && pk.name in v && v[pk.name] == VStr(key) ==>
      RowOf(fs, sortField, VPtr(rt, v)).id == key && RowOf(fs, sortField, VStruct(v)).id == key
  {
    PrimaryFieldsIff(fs, pk);
  }

  /** Every tested field holds the string asked for. */
  predicate HoldsTests(tests: map<string, Pb>, v: Fields) {
    forall name :: name in tests ==> name in v && tests[name].PString? && v[name] == VStr(tests[name].s)
  }

  /** A row passes exactly if it is there and holds what the tests ask for. */
  lemma PassesIff(tests: map<string, Pb>, x: Value)
    ensures Passes(tests, x) <==>
      match x {
        case VPtr(_, v) => HoldsTests(tests, v)
        case VStruct(v) => HoldsTests(tests, v)
        case _ => false
      }
  {
    forall name | name in tests && (x.VPtr? || x.VStruct?)
      ensures PassesOne(tests, x, name) <==>
        var v := if x.VPtr? then x.target else x.fields;
        name in v && tests[name].PString? && v[name] == VStr(tests[name].s)
    {
    }
  }

  /** The first L rows that pass, as result rows. */
  function Selected(fs: seq<FieldSpec>, tests: map<string, Pb>, sortField: string, limit: int, rows: seq<Value>)
    : seq<DataRow>
  {
    var hits := Take(Passing(tests, rows), RowLimit(limit));
    seq(|hits|, i requires 0 <= i < |hits| => RowOf(fs, sortField, hits[i]))
  }

  predicate Before(descending: bool, a: DataRow, b: DataRow) {
    if descending then a.order >= b.order else a.order <= b.order
  }

  predicate Ordered(descending: bool, rows: seq<DataRow>) {
    forall i, j :: 0 <= i < j < |rows| ==> Before(descending, rows[i], rows[j])
  }

  function InsertRow(descending: bool, row: DataRow, rows: seq<DataRow>): seq<DataRow> {
    if rows == [] then [row]
    else if Before(descending, row, rows[0]) then [row] + rows
    else [rows[0]] + InsertRow(descending, row, rows[1..])
  }

  lemma {:induction false} InsertKeepsRows(descending: bool, row: DataRow, rows: seq<DataRow>)
    ensures multiset(InsertRow(descending, row, rows)) == multiset(rows) + multiset{row}
  {
    if rows != [] {
      assert rows == [rows[0]] + rows[1..];
      InsertKeepsRows(descending, row, rows[1..]);
    }
  }

  lemma {:induction false} InsertKeepsOrder(descending: bool, row: DataRow, rows: seq<DataRow>)
    requires Ordered(descending, rows)
    ensures Ordered(descending, InsertRow(descending, row, rows))
  {
    if rows != [] && !Before(descending, row, rows[0]) {
      InsertKeepsOrder(descending, row, rows[1..]);
      InsertKeepsRows(descending, row, rows[1..]);
      var more := InsertRow(descending, row, rows[1..]);
      forall i | 0 <= i < |more| ensures Before(descending, rows[0], more[i]) {
        assert more[i] in multiset(more);
        assert more[i] in rows[1..] || more[i] == row;
      }
    }
  }

  /** Stands for the library sort, which promises no more than this. */
  method SortRows(rows: seq<DataRow>, descending: bool) returns (out: seq<DataRow>)
    ensures multiset(out) == multiset(rows) && Ordered(descending, out)
  {
    out := [];
    for i := 0 to |rows|
      invariant multiset(out) == multiset(rows[..i]) && Ordered(descending, out)
    {
      InsertKeepsOrder(descending, rows[i], out);
      InsertKeepsRows(descending, rows[i], out);
      out := InsertRow(descending, rows[i], out);
      assert rows[..i + 1] == rows[..i] + [rows[i]];
    }
    assert rows[..|rows|] == rows;
  }

  /** Counts the tests a row meets, in whatever order the map is walked. */
  method CountHits(tests: map<string, Pb>, x: Value) returns (hits: nat)
    requires x.VPtr? || x.VStruct?
    ensures hits == |tests| <==> Passes(tests, x)
  {
    hits := 0;
    var todo := tests.Keys;
    ghost var met: set<string> := {};
    while todo != {}
      invariant todo <= tests.Keys && met <= tests.Keys - todo && hits == |met|
      invariant forall name :: name in tests.Keys - todo ==> (name in met <==> PassesOne(tests, x, name))
      decreases |todo|
    {
      var name :| name in todo;
      todo := todo - {name};
      match tests[name]
      case PString(s) =>
        if Text(x, name) == Some(s) {
          hits := hits + 1;
          met := met + {name};
        }
      case _ =>
    }
    MetAll(tests.Keys, met);
    assert |tests| == |tests.Keys|;
  }

  lemma MetAll(keys: set<string>, met: set<string>)
    requires met <= keys
    ensures |met| <= |keys|
    ensures |met| == |keys| <==> met == keys
  {
    assert keys == met + (keys - met);
  }

  /** The loop over the rows: it stops as soon as the limit is reached. */
  method SelectRows(fs: seq<FieldSpec>, tests: map<string, Pb>, sortField: string, limit: int, rows: seq<Value>)
    returns (out: seq<DataRow>)
    ensures out == Selected(fs, tests, sortField, if limit == 0 then 10 else limit, rows)
  {
    var max := if limit == 0 then 10 else limit;
    out := [];
    var i := 0;
    while i < |rows| && |out| < max
      invariant 0 <= i <= |rows|
      invariant out == Selected(fs, tests, sortField, max, rows[..i])
      invariant |Passing(tests, rows[..i])| <= RowLimit(max) || max < 0
    {
      var x := rows[i];
      assert rows[..i + 1][..i] == rows[..i];
      if x.VPtr? || x.VStruct? {
        var hits := CountHits(tests, x);
        if hits == |tests| {
          out := out + [RowOf(fs, sortField, x)];
        }
      }
      i := i + 1;
    }
    SelectedPrefix(fs, tests, sortField, max, rows, i);
  }

  lemma {:induction false} PassingPrefix(tests: map<string, Pb>, rows: seq<Value>, i: nat)
    requires i <= |rows|
    ensures Passing(tests, rows[..i]) <= Passing(tests, rows)
    decreases |rows|
  {
    if i < |rows| {
      PassingPrefix(tests, rows[..|rows| - 1], i);
      assert rows[..|rows| - 1][..i] == rows[..i];
    } else {
      assert rows[..i] == rows;
    }
  }

  /** A row that passes is in the answer after those that pass before it, if the
      limit allows that many: the answer is in storage order. */
  lemma SelectedInOrder(fs: seq<FieldSpec>, tests: map<string, Pb>, sortField: string, limit: int, rows: seq<Value>, i: nat)
    requires i < |rows| && Passes(tests, rows[i])
    ensures var found, before := Selected(fs, tests, sortField, limit, rows), |Passing(tests, rows[..i])|;
      if before < RowLimit(limit) then before < |found| && found[before] == RowOf(fs, sortField, rows[i])
      else |found| == RowLimit(limit)
  {
    PassingPrefix(tests, rows, i + 1);
    assert rows[..i + 1][..i] == rows[..i];
    PassingPrefix(tests, rows, i);
  }

  lemma SelectedPrefix(fs: seq<FieldSpec>, tests: map<string, Pb>, sortField: string, max: int, rows: seq<Value>, i: nat)
    requires i <= |rows| && max != 0
    requires i == |rows| || |Selected(fs, tests, sortField, max, rows[..i])| >= max
    ensures Selected(fs, tests, sortField, max, rows[..i]) == Selected(fs, tests, sortField, max, rows)
  {
    if i == |rows| {
      assert rows[..i] == rows;
    } else {
      PassingPrefix(tests, rows, i);
    }
  }
}
