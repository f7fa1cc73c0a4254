/** What a query tells about the map that the rows of a table are, and which
    tables can be asked for an entry by its key. */
module Answers {
  import opened GoTypes
  import opened Names
  import opened Paths
  import opened Rows
  import opened KeyedMap
  import opened Query

  predicate Meets(tests: map<string, Pb>, v: Fields) {
    forall name :: name in tests ==> tests[name].PString? && TextIn(v, name) == Some(tests[name].s)
  }

  /** The keys of the entries that meet every test. */
  function Meeting(tests: map<string, Pb>, m: map<string, Fields>): set<string> {
    set key | key in m && Meets(tests, m[key])
  }

  function EntryRow(fs: seq<FieldSpec>, sortField: string, m: map<string, Fields>, key: string): DataRow
    requires key in m
  {
    DataRow(key, m[key], OrderOf(fs, sortField, m[key]))
  }

  function Ids(rows: seq<DataRow>): set<string> {
    set row | row in rows :: row.id
  }

  /** rows are entries of m that meet the tests, none twice, as many as there are
      up to the limit, in any order. */
  ghost predicate AnswersFor(fs: seq<FieldSpec>, tests: map<string, Pb>, sortField: string, limit: int,
      m: map<string, Fields>, rows: seq<DataRow>)
  {
    && (forall row :: row in rows ==> row.id in Meeting(tests, m) && row == EntryRow(fs, sortField, m, row.id))
    && |Ids(rows)| == |rows|
    && var most := if limit == 0 then 10 else if limit < 0 then 0 else limit;
       |rows| == if |Meeting(tests, m)| <= most then |Meeting(tests, m)| else most
  }

  /** A sort makes of an answer another one. */
  lemma SortedAnswers(fs: seq<FieldSpec>, tests: map<string, Pb>, sortField: string, limit: int,
      m: map<string, Fields>, rows: seq<DataRow>, sorted: seq<DataRow>)
    requires AnswersFor(fs, tests, sortField, limit, m, rows) && multiset(sorted) == multiset(rows)
    ensures AnswersFor(fs, tests, sortField, limit, m, sorted)
  {
    assert forall row :: row in sorted <==> row in multiset(sorted);
    assert forall row :: row in rows <==> row in multiset(rows);
    assert Ids(sorted) == Ids(rows);
    assert |sorted| == |multiset(sorted)| == |multiset(rows)| == |rows|;
  }

  // ------------------------------------------------------- rows and their keys

  lemma {:induction false} PassingMember(tests: map<string, Pb>, rows: seq<Value>)
    ensures forall x :: x in Passing(tests, rows) <==> x in rows && Passes(tests, x)
    decreases |rows|
  {
    if rows != [] {
      PassingMember(tests, rows[..|rows| - 1]);
      assert rows == rows[..|rows| - 1] + [rows[|rows| - 1]];
    }
  }

  /** Rows that are there have a key. */
  lemma RowHasKey(zs: Zeros, f: FieldSpec, x: Value)
    requires TableOk(zs, f) && ShapedStruct(zs, f, x) && !x.VNil?
    ensures Text(x, KeysOf(f).value.pk.name).Some? && Text(x, KeysOf(f).value.pk.name).value == IdOf(f.fields, StructOf(x))
  {
    PrimaryIsUnique(zs, f);
    var pk := KeysOf(f).value.pk;
    var i :| 0 <= i < |f.fields| && f.fields[i] == pk;
    assert ShapedValue(zs, f.fields[i], Deref(zs, x)[pk.name]);
  }

  lemma PassesIffMeets(tests: map<string, Pb>, x: Value)
    requires x.VPtr? || x.VStruct?
    ensures Passes(tests, x) <==> Meets(tests, StructOf(x))
  {
    if Passes(tests, x) {
      assert forall name :: name in tests ==> PassesOne(tests, x, name);
    }
  }

  function KeysAt(name: string, rows: seq<Value>): set<string> {
    set x | x in rows && Text(x, name).Some? :: Text(x, name).value
  }

  lemma {:induction false} AsManyKeys(name: string, rows: seq<Value>)
    requires KeysDistinct(name, rows) && forall x :: x in rows ==> Text(x, name).Some?
    ensures |KeysAt(name, rows)| == |rows|
    decreases |rows|
  {
    if rows != [] {
      var front, last := rows[..|rows| - 1], rows[|rows| - 1];
      AsManyKeys(name, front);
      assert rows == front + [last] && last in rows;
      assert Text(last, name).value !in KeysAt(name, front);
      assert KeysAt(name, rows) == KeysAt(name, front) + {Text(last, name).value};
    }
  }

  lemma {:induction false} PassingDistinct(name: string, tests: map<string, Pb>, rows: seq<Value>)
    requires KeysDistinct(name, rows)
    ensures KeysDistinct(name, Passing(tests, rows))
    decreases |rows|
  {
    if rows != [] {
      var front := rows[..|rows| - 1];
      PassingDistinct(name, tests, front);
      PassingMember(tests, front);
      forall i | 0 <= i < |Passing(tests, front)| && Text(Passing(tests, front)[i], name).Some?
        ensures Text(Passing(tests, front)[i], name) != Text(rows[|rows| - 1], name)
      {
        assert Passing(tests, front)[i] in front;
      }
    }
  }

  /** The keys of the rows that pass are those of the entries that meet the tests. */
  lemma PassingKeys(zs: Zeros, f: FieldSpec, tests: map<string, Pb>, rows: seq<Value>, m: map<string, Fields>)
    requires TableOk(zs, f) && Keyed(zs, f, rows, m)
    ensures KeysAt(KeysOf(f).value.pk.name, Passing(tests, rows)) == Meeting(tests, m)
  {
    var name, hits := KeysOf(f).value.pk.name, Passing(tests, rows);
    PassingMember(tests, rows);
    forall key | key in KeysAt(name, hits) ensures key in Meeting(tests, m) {
      var x :| x in hits && Text(x, name) == Some(key);
      assert RowIn(name, x, m);
      PassesIffMeets(tests, x);
    }
    forall key | key in Meeting(tests, m) ensures key in KeysAt(name, hits) {
      var i :| 0 <= i < |rows| && Text(rows[i], name) == Some(key);
      assert RowIn(name, rows[i], m);
      PassesIffMeets(tests, rows[i]);
      assert rows[i] in hits;
    }
  }

  /** Each row that passes is an entry of the map under its key. */
  lemma PassingRow(zs: Zeros, f: FieldSpec, tests: map<string, Pb>, sortField: string, rows: seq<Value>,
      m: map<string, Fields>, x: Value)
    requires TableOk(zs, f) && Keyed(zs, f, rows, m) && x in Passing(tests, rows)
    ensures x.VPtr? || x.VStruct?
    ensures Text(x, KeysOf(f).value.pk.name) == Some(RowOf(f.fields, sortField, x).id)
    ensures var row := RowOf(f.fields, sortField, x);
      row.id in Meeting(tests, m) && row == EntryRow(f.fields, sortField, m, row.id)
  {
    PassingMember(tests, rows);
    var i :| 0 <= i < |rows| && rows[i] == x;
    assert ShapedStruct(zs, f, rows[i]);
    RowHasKey(zs, f, x);
    assert RowIn(KeysOf(f).value.pk.name, rows[i], m);
    PassesIffMeets(tests, x);
  }

  lemma IdsAreKeys(zs: Zeros, f: FieldSpec, tests: map<string, Pb>, sortField: string, rows: seq<Value>,
      m: map<string, Fields>, hits: seq<Value>)
    requires TableOk(zs, f) && Keyed(zs, f, rows, m) && hits <= Passing(tests, rows)
    ensures var found := seq(|hits|, i requires 0 <= i < |hits| => RowOf(f.fields, sortField, hits[i]));
      && |Ids(found)| == |found|
      && forall row :: row in found ==> row.id in Meeting(tests, m) && row == EntryRow(f.fields, sortField, m, row.id)
  {
    var name := KeysOf(f).value.pk.name;
    var found := seq(|hits|, i requires 0 <= i < |hits| => RowOf(f.fields, sortField, hits[i]));
    forall i | 0 <= i < |hits|
      ensures Text(hits[i], name) == Some(found[i].id)
      ensures found[i].id in Meeting(tests, m) && found[i] == EntryRow(f.fields, sortField, m, found[i].id)
    {
      PassingRow(zs, f, tests, sortField, rows, m, hits[i]);
    }
    DistinctIds(name, tests, rows, hits, found);
  }

  lemma DistinctIds(name: string, tests: map<string, Pb>, rows: seq<Value>, hits: seq<Value>, found: seq<DataRow>)
    requires KeysDistinct(name, rows) && hits <= Passing(tests, rows) && |found| == |hits|
    requires forall i :: 0 <= i < |hits| ==> Text(hits[i], name) == Some(found[i].id)
    ensures |Ids(found)| == |found|
  {
    PassingDistinct(name, tests, rows);
    AsManyKeys(name, hits);
    SameIds(name, hits, found);
  }

  lemma SameIds(name: string, hits: seq<Value>, found: seq<DataRow>)
    requires |found| == |hits|
    requires forall i :: 0 <= i < |hits| ==> Text(hits[i], name) == Some(found[i].id)
    ensures Ids(found) == KeysAt(name, hits)
  {
    forall id | id in Ids(found) ensures id in KeysAt(name, hits) {
      var i :| 0 <= i < |found| && found[i].id == id;
      assert hits[i] in hits;
    }
    forall id | id in KeysAt(name, hits) ensures id in Ids(found) {
      var i :| 0 <= i < |hits| && Text(hits[i], name) == Some(id);
      assert found[i] in found;
    }
  }

  /** Whatever is asked, the rows a query selects answer for the map. */
  lemma SelectedAnswers(zs: Zeros, f: FieldSpec, tests: map<string, Pb>, sortField: string, limit: int,
      rows: seq<Value>, m: map<string, Fields>)
    requires TableOk(zs, f) && Keyed(zs, f, rows, m)
    ensures AnswersFor(f.fields, tests, sortField, limit, m, Selected(f.fields, tests, sortField, limit, rows))
  {
    var name, all := KeysOf(f).value.pk.name, Passing(tests, rows);
    IdsAreKeys(zs, f, tests, sortField, rows, m, Take(all, RowLimit(limit)));
    forall x | x in all ensures Text(x, name).Some? {
      PassingRow(zs, f, tests, sortField, rows, m, x);
    }
    PassingDistinct(name, tests, rows);
    AsManyKeys(name, all);
    PassingKeys(zs, f, tests, rows, m);
  }

  // -------------------------------------------------------------- query by key

  /** The filter tests the key for one value and nothing else. */
  predicate AsksKey(f: FieldSpec, filter: Option<Filter>, key: string)
    requires KeysOf(f).Some?
  {
    FilterTests(f.fields, filter) == Some(map[KeysOf(f).value.pk.name := PString(key)])
  }

  /** The entry of the key as the one row of an answer. */
  function Get(fs: seq<FieldSpec>, sortField: string, m: map<string, Fields>, key: string): seq<DataRow> {
    if key in m then [EntryRow(fs, sortField, m, key)] else []
  }

  /** The entries of a table's map hold their keys. */
  lemma EntryHoldsKey(zs: Zeros, f: FieldSpec, rows: seq<Value>, m: map<string, Fields>, key: string)
    requires KeysOf(f).Some? && Keyed(zs, f, rows, m) && key in m
    ensures TextIn(m[key], KeysOf(f).value.pk.name) == Some(key)
  {
    var i :| 0 <= i < |rows| && Text(rows[i], KeysOf(f).value.pk.name) == Some(key);
    assert RowIn(KeysOf(f).value.pk.name, rows[i], m);
  }

  /** Asked for one key, with no negative limit, the only answer is the entry of
      that key, or nothing if there is none. */
  lemma KeyAnswer(zs: Zeros, f: FieldSpec, rows: seq<Value>, m: map<string, Fields>, key: string, sortField: string,
      limit: int, found: seq<DataRow>)
    requires KeysOf(f).Some? && Keyed(zs, f, rows, m) && limit >= 0
    ensures AnswersFor(f.fields, map[KeysOf(f).value.pk.name := PString(key)], sortField, limit, m, found)
       <==> found == Get(f.fields, sortField, m, key)
  {
    var tests := map[KeysOf(f).value.pk.name := PString(key)];
    forall k | k in m ensures TextIn(m[k], KeysOf(f).value.pk.name) == Some(k) {
      EntryHoldsKey(zs, f, rows, m, k);
    }
    assert Meeting(tests, m) == if key in m then {key} else {};
    if key in m {
      var row := EntryRow(f.fields, sortField, m, key);
      assert Ids([row]) == {key};
      if AnswersFor(f.fields, tests, sortField, limit, m, found) {
        assert found[0] in found && found == [found[0]];
      }
    }
  }

  lemma {:induction false} IndexHolds(fs: seq<FieldSpec>)
    ensures forall t :: t in Index(fs) ==> Index(fs)[t] in fs && Index(fs)[t].tagName == t
    ensures DistinctTags(fs) ==> forall i :: 0 <= i < |fs| ==> fs[i].tagName in Index(fs) && Index(fs)[fs[i].tagName] == fs[i]
    decreases |fs|
  {
    if fs != [] {
      IndexHolds(fs[..|fs| - 1]);
    }
  }

  /** A field that lowers to the key's tag asks for the key, by AddFilter on a new
      query or by And on an empty filter. */
  lemma SpellingAsksKey(zs: Zeros, f: FieldSpec, field: string, key: string)
    requires TableOk(zs, f) && Lower(field) == KeysOf(f).value.pk.tagName
    ensures field != "" ==> AsksKey(f, Built(None, [ByAdd(Ask(field, PString(key)))]), key)
    ensures AsksKey(f, Built(Some(EMPTY_FILTER), [ByAnd(Ask(field, PString(key)))]), key)
  {
    var pk, ask := KeysOf(f).value.pk, Ask(field, PString(key));
    PrimaryIsUnique(zs, f);
    IndexHolds(f.fields);
    assert Index(f.fields)[pk.tagName] == pk;
    assert Known(f.fields, [ask][0].field) && Target(f.fields, ask) == pk;
    assert [ask][..0] == [] && LastAsked(f.fields, [ask]) == map[pk.name := PString(key)];
    NewQueryTests(f.fields, [ByAdd(ask)]);
    EmptyFilterTests(f.fields, [ByAnd(ask)]);
    assert Asks([ByAnd(ask)]) == [ask];
  }

  /** No filter tests the key if its tag has an upper-case letter. */
  lemma {:induction false} TestsMissKey(zs: Zeros, f: FieldSpec, inner: seq<Filter>)
    requires TableOk(zs, f) && HasUpper(KeysOf(f).value.pk.tagName)
    ensures TestsOf(f.fields, inner).Some? ==> KeysOf(f).value.pk.name !in TestsOf(f.fields, inner).value
    decreases |inner|
  {
    if inner != [] {
      TestsMissKey(zs, f, inner[..|inner| - 1]);
      OneMissesKey(zs, f, inner[|inner| - 1].field);
    }
  }

  lemma OneMissesKey(zs: Zeros, f: FieldSpec, field: string)
    requires TableOk(zs, f) && HasUpper(KeysOf(f).value.pk.tagName)
    ensures Known(f.fields, field) ==> Index(f.fields)[Lower(field)].name != KeysOf(f).value.pk.name
  {
    PrimaryIsUnique(zs, f);
    IndexHolds(f.fields);
    LowerKeepsIff(field);
    var pk := KeysOf(f).value.pk;
    if Known(f.fields, field) && Index(f.fields)[Lower(field)].name == pk.name {
      SameName(f.fields, Index(f.fields)[Lower(field)], pk);
    }
  }

  lemma FilterMissesKey(zs: Zeros, f: FieldSpec, filter: Option<Filter>)
    requires TableOk(zs, f) && HasUpper(KeysOf(f).value.pk.tagName)
    ensures FilterTests(f.fields, filter).Some? ==> KeysOf(f).value.pk.name !in FilterTests(f.fields, filter).value
  {
    match filter
    case None =>
    case Some(fr) =>
      if |fr.field| > 0 {
        OneMissesKey(zs, f, fr.field);
      } else {
        TestsMissKey(zs, f, fr.inner);
      }
  }

  /** Some filter asks for a key exactly when the key's tag has no upper case. */
  lemma KeyCanBeAskedIff(zs: Zeros, f: FieldSpec, key: string)
    requires TableOk(zs, f)
    ensures (exists filter :: AsksKey(f, filter, key)) <==> !HasUpper(KeysOf(f).value.pk.tagName)
  {
    var tag := KeysOf(f).value.pk.tagName;
    if HasUpper(tag) {
      forall filter ensures !AsksKey(f, filter, key) {
        FilterMissesKey(zs, f, filter);
      }
    } else {
      LowerKeepsIff(tag);
      SpellingAsksKey(zs, f, tag, key);
    }
  }
}
