# lynkapi: a verified model of the table store and the spec-driven merge

This project models the part of lynkapi that keeps an object tree as a set of
keyed tables, and proves what it guarantees. `dafny verify dfyconfig.toml` checks
all of it with Dafny 4.11.

What is modelled, bottom up:

- `GoTypes`: Go struct types, the field specs derived from them, and the values
  reflection sees. Pointers are nil or lead to a struct; a map of zero structs
  says what `reflect.New` yields.
- `SpecParse`, `SpecContents`, `SpecLaws`: deriving a spec from struct types that
  may refer to each other in cycles, with the one mutable set of kinds the parser
  shares between its recursive calls; what the spec holds and obeys.
- `Merge`, `MergerCode`, `MergeLaws`, `MergeEquiv`, `MergeExact`: merging one
  struct into another under a spec: as a function of two values, as the in-place
  loops with the captured change flag, and the laws of it.
- `Names`, `Paths`: request spellings of names, primary and unique fields, the
  path of a table in spec and object.
- `Decode`, `DecodeLaws`, `Rows`, `KeyedMap`, `UniqueKeys`, `SharedExample`,
  `Replay`, `StoredRows`: what insert, igsert, upsert and delete do to the rows of
  one table.
- `Query`, `Answers`: filters as callers build them, the rows a query returns, and
  what they tell about the map that a table is.
- `Store`, `StoreRuns`, `WriteThrough`, `StoreExamples`, `NewInstance`,
  `InstanceCode`: the instance as a state machine over whole runs, and as a class
  whose methods compute its steps.
- `Registry`: service registration and lookup. `Status`: error texts.

Each imperative source function is a method with the source's loops, proved
equal to a specification function; the laws are lemmas about those functions.

## Main results

- Every run of inserts, igserts, upserts, deletes and queries over any number of
  tables, failing calls and failing flushes included, is a run on finite maps:
  after every call each table's rows are its map, with distinct keys, and the
  outcome is the one the map operations `InsertKey` and `RemoveKey` have; a query
  answers with entries that meet its tests, none twice, as many as there are up
  to its limit (`RunRefines`).
- In such a run a query for one key is a get on the map of that moment
  (`RunQueryIsGet`). Some filter asks for a key exactly if the tag of the primary
  key has no upper-case letter (`KeyCanBeAskedIff`).
- Merging is idempotent; under the create and update options a second merge
  succeeds exactly if the first filled no required field from its default.
- Merging associates, for every destination and every two sources that can each be
  merged, exactly if the spec has no effective default and no pointer to a struct
  holding, by value, a bool, a string-keyed map or a []byte, or if it holds a
  []byte by value itself, so that no source can be merged (`AssociativeIff`,
  `MergeableIff`); the counterexample for every other spec is built.
- A merge succeeds exactly if its source is acceptable and supplies what the
  option asks for (`SucceedsIffSupplied`); without the create and update options
  that depends on the source alone (`SucceedsIffAccepted`). Under any option it keeps validity and
  shape even when it stops half-way and never panics on values of the declared
  type. Its change flag, when down, means that at most zero structs were
  allocated; without slices and maps that is an equivalence, pointers included.
- With several unique fields, an upsert keeps non-empty values pairwise distinct,
  whether or not its merge fails, exactly unless it merges into one row while
  another row holds a non-empty value it asks for, in a field that no refused value
  precedes; all other calls keep them. A run keeps them throughout exactly if no
  upsert in it does that (`RunUnsharedIff`).
- Sending a request object again after a successful igsert or upsert succeeds
  and changes nothing, generated keys included.
- Spec derivation terminates on every type environment, restores the set of
  kinds and computes a function of (type, depth, kinds above); the spec has one
  field for each declaration that counts, in their order, with its tag, type,
  attributes, enums and limits (`ExpandLists`), and meets every assumption of the
  other results.
- Decoding a request succeeds exactly if each value under a known tag fits its
  field, and yields what the values say, at every depth (`FieldsDecode`); a call
  that writes changes one row, whose scalar fields hold what the request gives, or
  what they held or a default where it gives zero (`InsertStores`).
- A sorted answer is in the order of the int or uint field asked for
  (`OrderedIsSorted`).
- Through a run whose flushes are written, disk and memory agree after every call
  exactly if no upsert hits a row with a request that the spec refuses after a
  field in which it changes the row, or in a struct behind a nil pointer
  (`RunSyncedIff`, `StopsHalf`); so they agree if every upsert that hits a row
  carries an accepted request (`RunKeepsSynced`).
- Through every sequence of calls and table setups the object keeps its shape, and
  a table is reached at any time exactly if it was at first (`RunKeepsInv`).

## Where the code surprises

- The depth guard of `parseStruct` (go/lynkapi/type.go:468) cannot fire, as its
  type is always a struct; only slices obey the maximal depth.
- A spec with a []byte field held by value can never be merged: its slice value
  does not fit the "bytes" type (go/lynkapi/type_data.go:414-417; `MergeableIff`).
- A merge allocates nil destination pointers without reporting a change
  (go/lynkapi/type_data.go:443-446), and the message of a missing
  `create_required` field says `update_required` (go/lynkapi/type_data.go:255).
- A unique value without a kind is replaced by a generated key in the request
  but not in the data to be decoded (go/oneobject/oneobject.go:322-334). A call in
  which the last value of some tag has no kind is refused, generated or not
  (`LacksKindIsRefused`, `EncodableIff`); sent again, it gets past that exactly if
  all such values were of unique fields (`RetryEncodableIff`).
- An empty or blank string is accepted as a key by the inserts and refused by
  Delete (go/oneobject/oneobject.go:332 and 484): exactly the entries with such a
  key stay for good (`EmptyKeyGetsIn`, `DeletableIff`, `BlankKeyStays`).
- A failed upsert merge leaves a partly merged row in memory, unflushed
  (`RefusedUpsertRunsAhead`).
- A query lowers the names of its filter but not the tags they are compared with
  (go/oneobject/oneobject.go:184): a field without a json tag, or with one that
  has upper-case letters, cannot be asked for (`UpperKeyIsNeverFound`).
- After one AddFilter, And turns off what follows: its own condition and those of
  every later AddFilter are ignored. After two of them And works. AddFilter on an
  empty filter set by the caller makes the query fail (`NewQueryTests`,
  `EmptyFilterTests`).
- A filter on a field that is not a string is ignored; one of another kind than
  string on a string field matches nothing (go/oneobject/oneobject.go:188-231).
- A table behind a pointer is set up without error, and every call on it fails.

## Model

| member | source | states |
|---|---|---|
| `SpecParse.ParseSpec` | go/lynkapi/type.go:368-379 | a fresh parser run on a whole struct type yields exactly the pure expansion from depth 0 with no kinds above |
| `SpecParse.SpecParser.ParseStruct` | go/lynkapi/type.go:466-480 | terminates on any cyclic type environment, appends exactly the pure expansion of (type, depth, kinds above) and leaves the set of kinds as it found it |
| `SpecParse.SpecParser.ParseDecls` | go/lynkapi/type.go:482-509 | the loop over the fields of one struct: repeated and unexported names skipped, set of kinds restored |
| `SpecParse.SpecParser.ParseField` | go/lynkapi/type.go:511-624 | the spec of one field by the kind of its type, no spec for unsupported types |
| `SpecParse.SpecParser.ParseArray` | go/lynkapi/type.go:661-695 | slices of scalars, structs and struct pointers, cut at the maximal depth |
| `SpecParse.ParseLimits` | go/lynkapi/type.go:413-464 | limits are kept, as they are, exactly for a number field with three non-zero numbers in order, positive for an unsigned one |
| `SpecContents.FieldCarries` | go/lynkapi/type.go:489-658 | a declaration gives a field exactly if its type is of a listed form, and the field carries its json tag, type, attributes, enums once each in order, limits, kind and the sub-fields of the struct behind it |
| `SpecContents.ExpandLists` | go/lynkapi/type.go:466-695 | a derived spec has one field for each declaration that is exported, first of its name and of a supported type, in their order, and no others |
| `SpecLaws.ExpandIsOk` | go/lynkapi/type.go:466-704 | every derived spec has distinct names, ordered limits and fitting zero structs at every level, and its zero struct is that of the type |
| `SpecLaws.TypedIsShaped` | go/lynkapi/type.go:466-704 | every value of the Go type has the shape its derived spec describes |
| `SpecLaws.FieldOrigin` | go/lynkapi/type.go:549-616 | the sub-fields of any derived field are the expansion of one struct type its declaration leads to, one level deeper or two for a slice, under the same kinds, whatever its siblings |
| `SpecLaws.KindsUnfoldOnce` | go/lynkapi/type.go:472-480 | on any path of a derived spec a named kind has fields of its own at most once, the root's kind included |
| `SpecLaws.PathBound` | go/lynkapi/type.go:472-480 | with N named struct types and no anonymous ones no path below the root has more than N nodes |
| `MergerCode.Merger.DataMerge` | go/lynkapi/type_data.go:266-460 | the field loop in place: destination, change flag and error are those of the merge function, writes before an error kept |
| `MergerCode.Merger.StructMerge` | go/lynkapi/type_data.go:436-455 | sub-structs by value and by pointer; a nil pointer is allocated even for a nil source, without raising the flag |
| `MergerCode.Merger.LeafMerge` | go/lynkapi/type_data.go:310-434 | the switch on the source's kind for all kinds but structs |
| `MergerCode.Merger.IntMerge` | go/lynkapi/type_data.go:348-368 | limits, default of a zero field, required check for integers |
| `MergerCode.Merger.UintMerge` | go/lynkapi/type_data.go:370-390 | the same for unsigned integers |
| `MergerCode.Merger.StringMerge` | go/lynkapi/type_data.go:323-346 | enums, empty strings and the required check |
| `MergerCode.Merger.ArrayMerge` | go/lynkapi/type_data.go:34-85 | a non-empty slice replaces the destination if every element has the spec's kind |
| `MergerCode.Merger.MapMerge` | go/lynkapi/type_data.go:87-156 | a string-keyed map replaces the destination, also when empty, if every entry fits, in any order of iteration |
| `MergerCode.Merger.RequiredCheck` | go/lynkapi/type_data.go:245-264 | refuses a zero source for a required field under the create and update options |
| `Merge.Pointwise` | go/lynkapi/type_data.go:288-457 | the sequential loop succeeds exactly when each field alone does, and then is the pointwise merge |
| `Merge.AllSettled` | go/lynkapi/type_data.go:288-457 | whatever the error, each field is as it was or as merging it alone leaves it |
| `Merge.Frame` | go/lynkapi/type_data.go:288-308 | nothing outside the spec is written |
| `Merge.StopsAt` | go/lynkapi/type_data.go:288-457 | the loop stops at the first field that fails: those before it are merged, that one as far as it got, the others untouched |
| `MergeLaws.MergeIsBlend` | go/lynkapi/type_data.go:266-460 | a successful merge is a declarative field-by-field blend: non-zero source, else default, else destination |
| `MergeLaws.SucceedsIffAccepted` | go/lynkapi/type_data.go:310-456 | without an option a merge succeeds exactly when the source is acceptable, for every destination |
| `MergeLaws.SucceedsIffSupplied` | go/lynkapi/type_data.go:245-456 | under every option a merge succeeds exactly when the source is acceptable and gives every number and string the option asks for, a zero destination with a default excepted |
| `MergeLaws.IntOutcome` | go/lynkapi/type_data.go:348-368 | an int is refused exactly outside the numbers of its limit tag; else a non-zero source is taken and a zero one lets a zero field take the default |
| `MergeLaws.UintOutcome` | go/lynkapi/type_data.go:370-390 | the same for unsigned integers |
| `MergeLaws.FieldAfterMerge` | go/lynkapi/type_data.go:266-460 | after a merge, failed or not, a field is its blend if no field up to it is refused; otherwise it is as it was, structs excepted |
| `MergeLaws.FirstRefusalIsError` | go/lynkapi/type_data.go:266-460 | the error is that of the first field refused: limit, enum, element or type |
| `MergeLaws.NeverPanics` | go/lynkapi/type_data.go:310-456 | on values of the declared shape no reflection call panics |
| `MergeLaws.KeepsShape` | go/lynkapi/type_data.go:266-460 | the destination keeps its declared shape, also when the merge stops half-way |
| `MergeLaws.KeepsValidity` | go/lynkapi/type_data.go:158-208 | numbers within limits or 0 and strings listed or empty stay so at every depth and in allocated structs, with or without an error |
| `MergeLaws.SecondMergeWritesNothing` | go/lynkapi/type_data.go:266-460 | after a successful merge the same merge again leaves the destination as it is, under every option |
| `MergeLaws.SecondMergeSucceedsIff` | go/lynkapi/type_data.go:245-264 | and it succeeds exactly when the first filled no required field from its default |
| `MergeLaws.Idempotent` | go/lynkapi/type_data.go:266-460 | without an option merging twice is merging once |
| `MergeEquiv.FlagDownMeansUnchanged` | go/lynkapi/type_data.go:462-466 | flag down, error or not, means nothing changed but allocation of zero structs |
| `MergeEquiv.FlagUpIffChanged` | go/lynkapi/type_data.go:318-456 | without slices and maps the flag is up exactly when the destination changed by more than an allocation, behind pointers too and error or not |
| `MergeEquiv.FlagUpIffDiffers` | go/lynkapi/type_data.go:318-456 | for scalars and structs held by value the flag is up exactly when the destination differs |
| `MergeEquiv.ZeroMergesAway` | go/lynkapi/type_data.go:318-456 | merging the zero struct is accepted and changes nothing for inert specs |
| `MergeEquiv.MergeRespectsEquiv` | go/lynkapi/type_data.go:436-455 | destinations equal up to allocation have results equal up to allocation |
| `MergeEquiv.MergeAssociates` | go/lynkapi/type_data.go:266-460 | merging a then b equals merging (b merged into a), up to allocation, and the inner merges succeed |
| `MergeExact.FieldCounterexample` | go/lynkapi/type_data.go:310-456 | any field breaking the condition has three acceptable values that do not associate |
| `MergeExact.MergeableIff` | go/lynkapi/type_data.go:414-417 | some struct can be merged under a spec exactly if it holds no []byte by value, and then the zero struct can |
| `MergeExact.AssociativeIff` | go/lynkapi/type_data.go:266-460 | associativity for all values that can be merged holds if and only if the spec meets the condition or nothing can be merged under it |
| `Names.LowerName` | go/oneobject/oneobject.go:615-631 | the byte loop computes the lowered name with dashes |
| `Names.LowerKeepsIff` | go/oneobject/oneobject.go:615-631 | exactly the names without upper case stay as they are, and no name lowers to a tag with upper case |
| `Names.LowerIsSmall` | go/oneobject/oneobject.go:615-631 | lowering puts a dash before every capital that follows another character and makes every capital the small letter 32 codes on |
| `Names.JoinSplits` | go/oneobject/oneobject.go:555-555 | a table's name is its tags joined by two underscores |
| `Paths.PrimaryKeys` | go/lynkapi/type.go:271-292 | the one primary field and all unique fields by tag, nothing unless there is exactly one primary field in a slice of structs |
| `Paths.KeysIff` | go/lynkapi/type.go:271-292 | a spec is that of a table exactly if it is a slice of structs with one field that is primary; its keys are the fields with either of the two attributes, by tag |
| `Paths.FindTable` | go/oneobject/oneobject.go:564-587 | a path found for n tags has n steps, the first one the field with the first tag, and ends in a field with a primary key |
| `Paths.FoundIffLeads` | go/oneobject/oneobject.go:564-587 | where the tags lead through struct fields to a slice with a primary key, that table is found, its path the names on the way |
| `Paths.FoundLeads` | go/oneobject/oneobject.go:564-587 | and a table is found only there |
| `Paths.GetAfterSetElsewhere` | go/oneobject/oneobject.go:53-82 | replacing the slice at one path leaves the slice at a separate path alone |
| `Paths.SetFrame` | go/oneobject/oneobject.go:441-441 | replacing the slice at a path replaces nothing else in the object, at any level |
| `Paths.TablesApart` | go/oneobject/oneobject.go:564-594 | paths of differently named tables are prefix-free |
| `Paths.ReachedIffByValue` | go/oneobject/oneobject.go:53-82 | findValue reaches the slice of an accepted table exactly when every struct on the way is held by value |
| `Paths.RowsAreShaped` | go/oneobject/oneobject.go:53-82 | what it reaches holds rows of the table's spec |
| `Paths.SetKeepsShape` | go/oneobject/oneobject.go:441-441 | replacing the rows keeps the object's declared shape |
| `Decode.DecodedString` | go/oneobject/oneobject.go:386-391 | a decoded row has the request's string in every string field, "" where the request has none |
| `Decode.DecodedIsShaped` | go/oneobject/oneobject.go:386-391 | a decoded row has the shape of the table's struct |
| `DecodeLaws.FieldsDecode` | go/oneobject/oneobject.go:386-391 | decoding succeeds exactly if every value under a known tag fits its field, and yields what the values say: scalars, list items, map entries and sub-structs, the zero value where nothing or null is given |
| `DecodeLaws.KindlessIff` | go/oneobject/oneobject.go:388-388 | a value cannot be encoded exactly if one without a kind is found somewhere inside |
| `StoredRows.InsertStores` | go/oneobject/oneobject.go:386-441 | a call that writes changes one row; a bool of it is what the request gives, a number or string that or, where it gives zero, what was there or the default |
| `StoredRows.StepStores` | go/oneobject/oneobject.go:294-449 | the same for a call on the instance, whether or not its flush is written |
| `Rows.StringFieldAfterMerge` | go/lynkapi/type_data.go:323-346 | a string field of a merge result, failed or not, is the source's if that is not empty and no field up to it is refused, else the destination's |
| `Rows.FirstHit` | go/oneobject/oneobject.go:395-416 | the scan stops at the first row hit and passes no row that is |
| `Rows.DeleteRefusedIff` | go/oneobject/oneobject.go:474-492 | a delete request is refused over a condition exactly when one on the key is white space only or no string, or the key is no string |
| `Rows.DeleteNamesLast` | go/oneobject/oneobject.go:474-495 | otherwise it names the last key given, or none |
| `Rows.BlankIff` | go/oneobject/oneobject.go:484-486 | a key is blank exactly if all its characters are among the white-space code points |
| `Rows.VisibleKeyIsDeleted` | go/oneobject/oneobject.go:474-538 | a request whose conditions on the key hold a visible character each is not refused and removes exactly the first row with the last key given |
| `KeyedMap.ScanKeys` | go/oneobject/oneobject.go:320-347 | the key map holds exactly the unique tags of the request with the values to be decoded |
| `KeyedMap.DecodedKeys` | go/oneobject/oneobject.go:320-391 | the keys looked for are the strings of the decoded row |
| `KeyedMap.AsMapRepresents` | go/oneobject/oneobject.go:395-434 | rows with distinct keys are a finite map |
| `KeyedMap.MergedKey` | go/oneobject/oneobject.go:422-439 | merging a request under a key leaves or gives that key, error or not |
| `KeyedMap.InsertRefines` | go/oneobject/oneobject.go:294-449 | insert is put or conflict, igsert put-if-absent, upsert put or merge into the entry, keys distinct after every outcome |
| `KeyedMap.DeleteRefines` | go/oneobject/oneobject.go:451-542 | delete is remove |
| `UniqueKeys.InsertKeepsUnshared` | go/oneobject/oneobject.go:395-441 | unique values stay unshared, whatever the outcome, exactly unless an upsert meets a row competing for a value that its merge gets to write |
| `UniqueKeys.OneHitIsEnough` | go/oneobject/oneobject.go:403-416 | a request that hits one row only has no competing row |
| `UniqueKeys.DeleteKeepsUnshared` | go/oneobject/oneobject.go:499-538 | delete keeps unique values unshared |
| `SharedExample.UpsertCanShare` | go/oneobject/oneobject.go:422-434 | a concrete upsert that succeeds and leaves two rows with one unique name |
| `Replay.PrepareMeans` | go/oneobject/oneobject.go:320-379 | the two loops let a request through exactly when its unique fields are strings given or generated and the primary key is given or generated; generated keys are written back in place, a missing primary key is appended, and nothing else |
| `Replay.Reprepare` | go/oneobject/oneobject.go:320-375 | reading the patched request passes, patches nothing, finds the same keys and decodes every unique value as it is looked for |
| `Replay.EncodableIff` | go/oneobject/oneobject.go:320-388 | the data of a request let through can be encoded exactly if no last value of a tag lacks a kind |
| `Replay.LacksKindIsRefused` | go/oneobject/oneobject.go:322-388 | a call in which one does is refused and changes no row, whatever was generated |
| `Replay.RetryEncodableIff` | go/oneobject/oneobject.go:322-388 | sent again it gets past that exactly if every such value was of a unique field |
| `StoreExamples.GeneratedTooLate` | go/oneobject/oneobject.go:322-388 | a concrete insert that is refused after its key was generated, and done when sent again |
| `Replay.ReplayChangesNothing` | go/oneobject/oneobject.go:349-434 | replaying a successful igsert or upsert succeeds, leaves every row and the request as they are |
| `Query.DataQuery.AddFilter` | go/lynkapi/data_query.go:47-72 | the filter after adding a condition: set, wrapped into a list, or appended |
| `Query.DataQuery.AndFilter` | go/lynkapi/data_query.go:89-100 | And appends one condition to the inner list and changes nothing else |
| `Query.BuiltFilterTests` | go/oneobject/oneobject.go:182-204 | any calls of AddFilter on a new query, or of And on an empty filter, make the query test the last value given per string field, and fail on an unknown field |
| `Query.NewQueryTests` | go/lynkapi/data_query.go:47-100 | after AddFilter on a new query, any further AddFilter and And calls are all asked exactly if the second one is AddFilter; otherwise only the first condition is, the later AddFilter calls ignored too |
| `Query.EmptyFilterTests` | go/lynkapi/data_query.go:47-100 | on an empty filter all are asked if the first call is And; AddFilter first adds a condition on the nameless field |
| `Query.LastAskedIsLast` | go/oneobject/oneobject.go:193-201 | the value tested for a field is that of its last condition |
| `Query.OnlyAskedIsTested` | go/oneobject/oneobject.go:193-201 | a field is tested exactly if it is a string and some condition is on it |
| `Query.BuiltFilterIsFlat` | go/lynkapi/data_query.go:59-70 | built filters have one level of conditions |
| `Query.CountHits` | go/oneobject/oneobject.go:214-231 | the hit count equals the number of tests exactly when the row passes all, in any map order |
| `Query.SelectRows` | go/oneobject/oneobject.go:206-253 | the loop yields exactly the first L passing rows in storage order, none for a negative limit |
| `Query.SelectedInOrder` | go/oneobject/oneobject.go:206-253 | a row that passes stands in the answer after as many rows as pass before it, as far as the limit reaches |
| `Query.PassesIff` | go/oneobject/oneobject.go:207-232 | a row passes exactly if it is a struct, held or pointed to, with the string asked for in every tested field |
| `Query.RowHolds` | go/oneobject/oneobject.go:240-247 | a row of the answer holds the fields of its struct and the string of the one primary field |
| `Query.SortRows` | go/oneobject/oneobject.go:255-265 | a permutation ordered in the requested direction |
| `Query.OrderedIsSorted` | go/oneobject/oneobject.go:167-180 | rows in the order of their numbers are in the order of the positive values of the int or uint field with the sort's tag, every other value counting as 0 |
| `Store.OtherTables` | go/oneobject/oneobject.go:441-441 | a call on one table leaves the rows of every other table alone |
| `Store.StepKeepsInv` | go/oneobject/oneobject.go:294-542 | every call keeps the object's shape and the registered tables |
| `Store.StepKeepsReach` | go/oneobject/oneobject.go:53-82 | a table that can be reached stays so over every call, one behind a pointer never is |
| `Store.RunKeepsInv` | go/oneobject/oneobject.go:294-606 | over every sequence of calls and setups the invariant holds, and a table stays as set up and is reached exactly if it was at first |
| `Answers.SelectedAnswers` | go/oneobject/oneobject.go:206-253 | the rows a query selects are entries of the table's map that meet the tests, none twice, as many as there are up to the limit |
| `Answers.SortedAnswers` | go/oneobject/oneobject.go:255-265 | a sort makes of an answer another one |
| `Answers.KeyAnswer` | go/oneobject/oneobject.go:206-253 | tested for one key, the only answer is the entry of that key as its one row, or nothing |
| `Answers.SpellingAsksKey` | go/oneobject/oneobject.go:182-204 | a field name that lowers to the key's tag asks for the key, by AddFilter or And |
| `Answers.KeyCanBeAskedIff` | go/oneobject/oneobject.go:150-204 | some filter asks for a key exactly if the key's tag has no upper-case letter |
| `StoreExamples.UpperKeyIsNeverFound` | go/oneobject/oneobject.go:182-204 | a concrete table, its key declared without a json tag, of which no filter asks a key and where naming the field is an error |
| `Store.StepRefines` | go/oneobject/oneobject.go:137-542 | each call acts on the tables as the map machine on maps, with an outcome the maps allow |
| `Store.RunRefines` | go/oneobject/oneobject.go:137-542 | in every run over any tables, after n calls the tables are the maps of the map machine and call n has an outcome they allow |
| `Store.QueryIsGet` | go/oneobject/oneobject.go:137-274 | a query by key is allowed one outcome: the row of the map's entry, or no row |
| `Store.RunQueryIsGet` | go/oneobject/oneobject.go:137-274 | so in every run it returns the entry that the map machine holds by then |
| `Store.BlankKeyStays` | go/oneobject/oneobject.go:484-486 | an entry with a blank key stays in its map over every run |
| `KeyedMap.DeletableIff` | go/oneobject/oneobject.go:474-538 | some delete removes an entry exactly if its key is not white space only |
| `StoreExamples.DeleteRemoves` | go/oneobject/oneobject.go:499-538 | a concrete delete of the key "abc" that empties the table in memory and on disk |
| `StoreExamples.EmptyKeyGetsIn` | go/oneobject/oneobject.go:332-338 | a concrete insert of the empty key that is done, and whose row no delete removes |
| `Store.SetupKeepsInv` | go/oneobject/oneobject.go:560-605 | table setup registers the table under its name, changes nothing else, succeeds exactly if the name is then registered, and keeps the invariant exactly if a new table has pointer rows, a string key and distinct tags |
| `MergeLaws.StopsHalfIff` | go/lynkapi/type_data.go:288-457 | a refused merge changed its destination exactly if a field before the first refused one differs from its blend, or the refused one is a struct that was nil or in which the same holds |
| `WriteThrough.StepKeepsSynced` | go/oneobject/oneobject.go:418-447 | a call whose flush is written keeps disk and memory equal exactly unless it is an upsert that hits a row with a request under which the merge stops half-way in that sense |
| `WriteThrough.RunSyncedIff` | go/oneobject/oneobject.go:103-108 | a run whose flushes are written keeps them equal after every call exactly if it holds no such upsert |
| `WriteThrough.RunKeepsSynced` | go/oneobject/oneobject.go:103-108 | in particular if every upsert that hits a row carries a request the spec accepts |
| `StoreExamples.RefusedUpsertRunsAhead` | go/oneobject/oneobject.go:422-434 | a concrete refused upsert that leaves the row changed in memory and not on disk |
| `StoreRuns.ReplayStep` | go/oneobject/oneobject.go:349-448 | on the instance, the request object as the call left it can be sent again with no effect on the whole object |
| `StoreRuns.StepKeepsUnshared` | go/oneobject/oneobject.go:395-441 | a call keeps unique values unshared in all tables exactly if it is not contested |
| `StoreRuns.RunUnsharedIff` | go/oneobject/oneobject.go:395-441 | a run keeps them unshared after every call exactly if no call in it is contested |
| `StoreRuns.RunKeepsUnshared` | go/oneobject/oneobject.go:395-441 | so at the end of a run of uncontested calls they are unshared |
| `NewInstance.NewInstanceKeepsInv` | go/oneobject/oneobject.go:113-135 | a new instance on any value of any struct type starts in the invariant |
| `InstanceCode.Instance.Flush` | go/oneobject/oneobject.go:608-613 | writes the object, or reports the failure; nothing without a hook |
| `InstanceCode.Instance.ReadRequest` | go/oneobject/oneobject.go:320-347 | the first loop fills data and keys and writes generated keys into the request |
| `InstanceCode.Instance.PrepareRequest` | go/oneobject/oneobject.go:313-379 | both loops over the request, the missing primary key appended to it |
| `InstanceCode.Instance.CountKeyHits` | go/oneobject/oneobject.go:403-412 | no hits are counted exactly when no unique field matches, in any map order |
| `InstanceCode.Instance.FindHit` | go/oneobject/oneobject.go:395-416 | the index of the first row hit |
| `InstanceCode.Instance.PlaceRow` | go/oneobject/oneobject.go:395-448 | conflict, no-op, merge in place or append, then flush |
| `InstanceCode.Instance.InsertInto` | go/oneobject/oneobject.go:313-449 | reading the request, decoding it and placing the row compute the insert on rows, the request left as it says |
| `InstanceCode.Instance.InsertRow` | go/oneobject/oneobject.go:294-449 | the whole of insert computes the step of the state machine and the request after it |
| `InstanceCode.Instance.ReadConditions` | go/oneobject/oneobject.go:474-492 | the loop over delete conditions |
| `InstanceCode.Instance.WithoutRow` | go/oneobject/oneobject.go:524-531 | the rebuilt slice is the old one without row i |
| `InstanceCode.Instance.RemoveRow` | go/oneobject/oneobject.go:499-541 | the scan for the row with the key, its removal and the flush |
| `InstanceCode.Instance.Delete` | go/oneobject/oneobject.go:451-542 | the whole of Delete computes the step of the state machine |
| `InstanceCode.Instance.ReadFilter` | go/oneobject/oneobject.go:182-204 | the tests a filter amounts to, or failure on an unknown field |
| `InstanceCode.Instance.RunQuery` | go/oneobject/oneobject.go:137-274 | the whole of Query returns the rows of the step of the state machine, in storage order or as a permutation sorted by the field asked for, and fails exactly where the step refuses |
| `InstanceCode.Instance.TableSetup` | go/oneobject/oneobject.go:544-606 | computes the setup step |
| `Registry.LynkService.RegisterService` | go/lynkapi/service.go:90-257 | registration with its maps, lists and alias entries is the registration function |
| `Registry.LynkService.LookupMethod` | go/lynkapi/service.go:259-269 | lookup by "service.method" |
| `Registry.KeyInjective` | go/lynkapi/service.go:249-263 | the key determines service and method, as method names have no dot |
| `Registry.FirstInIff` | go/lynkapi/service.go:138-222 | the method found in a type is the first of that name that is exported and can be called |
| `Registry.RegisteredIsDescribed` | go/lynkapi/service.go:113-254 | for every history services and methods are listed once, own methods are found under their own names, whatever is found belongs to that service or the one it is an alias of, and an alias works until its name is registered |
| `Registry.LookupAlias` | go/lynkapi/service.go:130-136 | a name under which nothing was registered finds exactly the methods of the service it is the alias of |
| `Registry.LookupOwn` | go/lynkapi/service.go:249-269 | lookup of a registered service's own method returns the first one registered, in any order and beside any alias |
| `Status.RoundTripIff` | go/lynkapi/service_status.go:128-155 | a status survives its error text exactly if its code has four bytes or it is plain OK |
| `Status.UnknownParses` | go/lynkapi/service_status.go:128-131 | a nil status reads as the unknown error |
| `Status.UntaggedParses` | go/lynkapi/service_status.go:137-155 | a text without a code reads as an internal error, no error as OK, and an OK status has no error |
| `Status.ResponseAgrees` | go/lynkapi/service_status.go:73-95 | an error response tells what parsing the error would |
| `Status.InnermostIff` | go/lynkapi/service_status.go:73-95 | wrapped errors parse to the innermost code and message, exactly if the message is not empty or there is one wrap |

## Left out

- gRPC, HTTP, authentication, logging, command line and locks: plumbing; each
  call holds the lock for its whole body and is one step here.
- Rows and sub-structs are values: one pointer shared by two rows, or by a row
  and its request, is not modelled; a merged row is written back to its place.
- Floats, embedded fields, integer widths below 64 bits, and the rounding of
  limits to float64.
- JSON text: number formats, base64 of []byte and case-insensitive tags;
  decoding goes by exact tag and type.
- DecodeRow: leaves the bytes of a []byte field empty and refuses non-empty maps
  with integer keys, because the library's text forms are not modelled; it does
  not look below the place where the spec of a recursive type is cut off.
- SortRows: stands for the library's unstable sort; only order and content are
  promised.
- RunQuery: returns stored fields instead of their JSON view, without the status
  beside them, and takes every filter to carry a value (a nil one panics in the
  code).
- TableSetup: takes the trimmed path already split at double underscores.
- Attributes, limits and enums are taken as parsed from their tags; dictionary
  namespaces, styles and string defaults (which the parser never sets) are not
  modelled. A limit tag with one value panics in the code.
- Tables of structs by value, into which the code would append a pointer, and
  tables whose primary key is not a string, which the code does not implement.
- Generated keys are arbitrary strings chosen by the environment.
- RegisterService: leaves out pre-methods, the maps of request types and the
  receiver objects (methods that a second type adds under a registered name are
  called on the first object); names of generic types, with dots, are allowed.
- The data-service registry, ParseStruct, dataUpdate, hashes and random bytes:
  they would only add easy members.
