# pysimdb table engine and query pipeline, in Dafny

This project models the core of pysimdb, a small embedded record store that
keeps each table as a JSON document of records:

- **Schema validation** (`pysimdb/schema.py`, module `Schema`). A
  `TableSchema` declares typed fields and an optional primary key. Its
  constructor rejects a primary key that is not a declared field.
  `validate` accepts a record exactly when every declared field is present
  and an instance of its type. An `int` field accepts booleans, as
  `isinstance(True, int)` does in Python. Undeclared fields are ignored.
  `validate` is a pure function here, so it changes neither the record nor
  the schema.
- **The table engine** (`pysimdb/database.py`, modules `Tables`,
  `SecondaryIndex` and `Database`). `JsonDatabase` is a class whose fields
  are:
  - the stored documents, an abstract map from table name to its rows;
  - the registered schemas;
  - the primary index of each table, rebuilt from the stored rows after
    every write;
  - the secondary indexes (field value to set of primary keys), patched in
    place by `insert`, `update` and `delete`;
  - the index metadata.

  `insert`, `update`, `delete`, `create_index` and `transaction` are
  methods. Each state-changing method is tied to a function of the old
  state (`InsertEffect`, `UpdateEffect`, `Rollback`, …), and the lemmas
  about those functions state what the operation promises. The invariant
  `Valid` says the index metadata names exactly the maintained indexes.
- **The query pipeline** (`pysimdb/query_builder.py`, module `Query`).
  `QueryBuilder` is a class whose setters overwrite their setting and
  return the builder, while `where` accumulates conditions and records
  equality filters. `All` fetches the base rows through a secondary index
  when an equality filter allows it, or else all the table's rows. It then
  runs the pipeline:
  1. the conjunctive filter;
  2. the nested-loop equi-join;
  3. the stable sort;
  4. the offset and the limit, with Python's slicing rules;
  5. the projection.

  Each stage is a function with lemmas. `All` is proved to return their
  composition (`Execute`) applied to the base rows it fetched, and what
  it fetched is stated (`FetchedVia`): the whole table, or the rows of a
  successful index lookup, once per key.

Records are maps from field name to a tagged value (`Int`, `Str`, `Bool`,
an opaque `Float`, `Null`). Python's TypeError on an impossible comparison
or sort becomes `Failure(TypeError)`. The engine's exceptions become
`Outcome`/`Result` errors.

Two behaviours of the code are worth knowing:

- Sorting by a field that some rows lack raises TypeError as soon as `None`
  has to be compared with another value (pysimdb/query_builder.py:103).
- A failed transaction writes back only the documents that existed when the
  snapshot was taken (pysimdb/database.py:189-200). Tables created by the
  body keep their new contents.

## Model

| member | source | states |
|---|---|---|
| Values.LessStrictWeakOrder | pysimdb/query_builder.py:35-42 | Python's `<` on comparable values (numbers with booleans as 0/1, or strings) is irreflexive and transitive, incomparability is transitive, and "neither is smaller" means the same number or the same string |
| Values.Matches | pysimdb/database.py:98 | an empty filter matches every row; a matching row holds every filtered field whose value is not None, and a filtered field it lacks must be filtered on None |
| Schema.NewSchema | pysimdb/schema.py:7-11 | construction succeeds exactly when no non-empty primary key is missing from the fields; a failure names a key that no field declares |
| Schema.CheckFields | pysimdb/schema.py:14-18 | a MissingField error names a declared field absent from the record; a WrongType error names a declared field whose value is not an instance of its type |
| Schema.IsInstance | pysimdb/schema.py:17 | None is an instance of no type; a boolean is an instance of exactly `int` and `bool`; an integer is an instance of exactly `int` |
| Schema.Validate | pysimdb/schema.py:13-20 | a missing-primary-key error is raised only after the field loop passed, for a declared key absent from the record; any other error is the field loop's |
| Schema.CheckFieldsPassesExactly | pysimdb/schema.py:14-18 | the field loop passes exactly when every declared field is present with a value of its type |
| Schema.ValidateAcceptsExactly | pysimdb/schema.py:13-20 | `validate` accepts exactly when all declared fields conform and a declared primary key is present |
| Schema.MissingFieldRejected | pysimdb/schema.py:15-16 | an absent declared field makes `validate` fail |
| Schema.WrongTypeRejected | pysimdb/schema.py:17-18 | a declared field with a value of the wrong type makes `validate` fail |
| Schema.PrimaryKeyImpliedByFields | pysimdb/schema.py:19-20 | for a constructed schema, a record passing the field loop already holds the key, so the final check never fails on its own |
| Schema.UndeclaredFieldsIgnored | pysimdb/schema.py:14-18 | adding undeclared fields to a record never changes the field loop's verdict |
| Schema.ValidateIgnoresUndeclared | pysimdb/schema.py:13-20 | undeclared fields never change `validate`'s verdict |
| Schema.StringIdRejected | tests.py:49-58 | the string id "1" under an int field is rejected with WrongType; a boolean id is accepted |
| Tables.PrimaryKeyOf | pysimdb/database.py:43-47 | a key is used exactly when the table has a schema with a non-empty primary key |
| Tables.PrimaryIndex | pysimdb/database.py:206-207 | the keyed index can be built (no KeyError) exactly when every stored row holds the key |
| Tables.PrimaryIndexCorrect | pysimdb/database.py:206-207 | every row's key value is in the index, and each key maps to the last row holding it |
| Tables.PositionIndex | pysimdb/database.py:208-209 | without a key, the index maps exactly the positions 0..n-1 to the rows |
| Tables.BuildRowIndex | pysimdb/database.py:203-209 | rebuilding the primary index raises exactly when the table has a primary key that some stored row lacks |
| Tables.PrimaryIndexHasKey | pysimdb/database.py:50 | a key value is in the rebuilt index exactly when some stored row holds it |
| Tables.RowIndexRowsAreStored | pysimdb/database.py:203-209 | every row of the primary index is a stored row |
| Tables.FirstWithKey | pysimdb/database.py:60-61 | the position found is the first row with the key value, or the length when no row has it |
| Tables.ReplaceFirstRow | pysimdb/database.py:60-63 | the loop overwrites that first row with the record; the length and every other row are unchanged |
| Tables.UpdatedRows | pysimdb/database.py:97-104 | a matching row becomes the row merged with the patch (patch fields win, others kept); other rows and the length are unchanged |
| Tables.Kept | pysimdb/database.py:128-130 | the kept rows are exactly the non-matching rows |
| Tables.KeptLength | pysimdb/database.py:123-134 | the table shrinks by exactly the number of matching rows |
| Tables.RemovedKeys | pysimdb/database.py:131-133 | one removed key per matching row, holding every matching row's key value |
| Tables.SplitRows | pysimdb/database.py:124-133 | `delete`'s loop yields exactly the kept rows and the removed keys |
| StableSort.Sort | pysimdb/query_builder.py:103 | sorting permutes the rows (same multiset) |
| StableSort.SortIsSorted | pysimdb/query_builder.py:103 | with comparable keys, no row is preceded by a later one, ascending or with `reverse=True` |
| StableSort.SortIsStable | pysimdb/query_builder.py:103 | rows with equal keys keep their relative order, also with `reverse=True` |
| SecondaryIndex.AddKey | pysimdb/database.py:79-82 | the key joins the value's set; every other value's set is unchanged; no empty set appears |
| SecondaryIndex.DropKey | pysimdb/database.py:139-149 | after removing one key no set lists it, sets without it are untouched, every surviving set is the old one minus the key, and no empty set appears |
| SecondaryIndex.PatchIndex | pysimdb/database.py:79-149 | each of the three patches keeps the index free of empty sets; an insert adds the key under the record's value only (when the field is present); a delete leaves no removed key listed |
| SecondaryIndex.DiscardKey | pysimdb/database.py:112-115 | the key leaves the value's set, which is dropped once empty; other values are untouched |
| SecondaryIndex.MoveKey | pysimdb/database.py:109-117 | on a change of value the key leaves the old value's set and joins the new one's unless it is None; other values are untouched |
| SecondaryIndex.DropKeys | pysimdb/database.py:137-149 | every removed key leaves every set; a value is dropped exactly when its non-empty set held only removed keys |
| SecondaryIndex.DropKeysNoEmptySets | pysimdb/database.py:143-149 | after a delete no empty set remains and no removed key is listed |
| SecondaryIndex.PatchAll | pysimdb/database.py:108 | patching a table's indexes keeps the same indexed fields |
| SecondaryIndex.PatchIndexes | pysimdb/database.py:108-117 | the in-place loop over the table's indexes applies the patch to every index |
| SecondaryIndex.UpdatedIndexes | pysimdb/database.py:97-117 | `update`'s row-by-row patching keeps the same indexed fields |
| SecondaryIndex.UpdateRowMovesKey | pysimdb/database.py:99-117 | for each matching row and each indexed field whose value changes, the updated key leaves the old value's set and joins the new value's unless it is None; every other value's set is as before |
| SecondaryIndex.BuildValueIndex | pysimdb/database.py:160-164 | the index built lists each live row's key under its non-None value and nothing else, with no empty set |
| SecondaryIndex.CollectLiveRows | pysimdb/database.py:186 | the lookup returns the row of every listed key that is live, once per key, and nothing else |
| SecondaryIndex.ExactLookupFindsValue | pysimdb/database.py:177-186 | through an exact index a lookup returns the row of every key whose row holds the value, once per key, and nothing else; so it returns as many rows as there are such keys |
| SecondaryIndex.LiveRowsCount | pysimdb/database.py:186 | a row is returned exactly when a listed live key maps to it, and there are as many rows as listed live keys |
| SecondaryIndex.StaleLookupReturnsOtherValue | pysimdb/database.py:182-186 | the value is not re-checked: a stale index returns a live row whose field no longer holds it |
| Database.InsertInvalidChangesNothing | pysimdb/database.py:36-39 | a record failing validation raises and changes no table and no index |
| Database.InsertEffect | pysimdb/database.py:36-82 | a successful insert leaves the table with a document and a primary index |
| Database.InsertEffectOnlyTable | pysimdb/database.py:36-82 | `insert` changes no other table's document, primary index or secondary indexes, and creates or drops no secondary index |
| Database.ReplaceEffect | pysimdb/database.py:58-66 | the "replace" branch keeps the table's length and leaves the secondary indexes as they were |
| Database.ReplaceEffectOnlyTable | pysimdb/database.py:58-66 | the "replace" branch touches no other table |
| Database.AppendEffect | pysimdb/database.py:68-71 | the append branch saves the prior rows followed by the record |
| Database.AppendEffectOnlyTable | pysimdb/database.py:68-82 | the append branch touches no other table and creates or drops no secondary index |
| Database.InsertDuplicateKeepsRows | pysimdb/database.py:50-57 | with a colliding key, "error" raises DuplicateKey and "ignore" returns; stored rows and secondary indexes are unchanged |
| Database.InsertReplaceInPlace | pysimdb/database.py:58-66 | "replace" overwrites the first row with the key in place: same length, other rows and tables unchanged, secondary indexes not patched |
| Database.InsertNewKeyAppends | pysimdb/database.py:68-82 | a new key appends the record after the prior rows; the rebuilt primary index maps the key to the record; each secondary index of the table gains exactly the key under the record's value, every other value's set unchanged; other tables are untouched |
| Database.InsertUnknownModeDuplicates | pysimdb/database.py:51-69 | an unrecognised mode with a colliding key appends, leaving two rows with the same key |
| Database.UpdatedIndexesNoMatch | pysimdb/database.py:97-117 | when no row matches, no secondary index changes |
| Database.UpdateEffect | pysimdb/database.py:93-121 | `update` keeps the table's length |
| Database.UpdateEffectOnlyTable | pysimdb/database.py:93-121 | `update` touches no other table and creates or drops no secondary index |
| Database.UpdateRewritesMatches | pysimdb/database.py:97-121 | when a row matches, the saved table has every matching row merged with the patch (patch fields win) and the others kept, in the same positions; no other table changes |
| Database.UpdateNoMatchChangesNothing | pysimdb/database.py:119-121 | when no row matches, nothing is saved and no primary or secondary index changes |
| Database.UpdateSkipsValidation | pysimdb/database.py:93-121 | a patch writing a string into an int field is saved; the stored row then fails validation |
| Database.UpdateRows | pysimdb/database.py:97-118 | `update`'s loop yields the merged rows, the patched secondary indexes and whether any row matched |
| Database.UpdateState | pysimdb/database.py:93-121 | `update` run on the engine's state gives exactly `UpdateEffect`'s new state and outcome |
| Database.UpdateKeepsCoherent | pysimdb/database.py:101-117 | `update` patches the indexes of a table in place, so every table keeps exactly its indexed fields |
| Database.AppendState | pysimdb/database.py:68-82 | the append branch run on the engine's state gives exactly `AppendEffect`'s new state and outcome |
| Database.AppendKeepsCoherent | pysimdb/database.py:73-82 | appending patches the indexes of a table in place, so every table keeps exactly its indexed fields |
| Database.RestoreSnapshot | pysimdb/database.py:197-200 | the restore loop gives exactly `Rollback`'s documents |
| Database.Rollback | pysimdb/database.py:197-200 | after a failure every snapshot table has its snapshot rows, and tables created by the body keep theirs |
| Database.JsonDatabase.constructor | pysimdb/database.py:9-16 | a fresh engine has no schemas and no indexes |
| Database.JsonDatabase.Reindex | pysimdb/database.py:203-209 | the primary index is rebuilt from the stored rows, or the call fails and leaves it unchanged |
| Database.JsonDatabase.CreateTable | pysimdb/database.py:18-21 | registers the schema, creates an empty document only if none exists, and rebuilds the primary index |
| Database.JsonDatabase.DropTable | pysimdb/database.py:23-34 | the document, schema, primary index, secondary indexes and metadata of the table are all removed |
| Database.JsonDatabase.Insert | pysimdb/database.py:36-82 | the new state and the outcome are those of `InsertEffect`; schemas and metadata are unchanged and `Valid` is kept |
| Database.JsonDatabase.ReplaceRecord | pysimdb/database.py:58-66 | the "replace" branch's state is `ReplaceEffect`'s |
| Database.JsonDatabase.AppendRecord | pysimdb/database.py:68-82 | the append branch's state is `AppendEffect`'s |
| Database.JsonDatabase.Select | pysimdb/database.py:84-86 | returns the stored rows in order |
| Database.JsonDatabase.Update | pysimdb/database.py:93-121 | the new state and the outcome are those of `UpdateEffect`; `Valid` is kept |
| Database.JsonDatabase.Delete | pysimdb/database.py:123-150 | keeps exactly the non-matching rows; saves, patches the secondary indexes and re-indexes only if a row went |
| Database.JsonDatabase.CreateIndex | pysimdb/database.py:153-166 | fails without a primary key, changing nothing, or when a row lacks the key, changing no index; it succeeds exactly otherwise, and then the primary index is rebuilt, only this field's secondary index is replaced, the new index is exact and it is recorded in the metadata |
| Database.JsonDatabase.DropIndex | pysimdb/database.py:168-172 | removes the field's index and metadata entry; an absent index is a no-op |
| Database.JsonDatabase.ListIndexes | pysimdb/database.py:174-175 | returns exactly the fields whose index is maintained |
| Database.JsonDatabase.GetRowsByIndex | pysimdb/database.py:177-186 | succeeds exactly when the index exists or the table has a primary key, and every row holds the key; then returns the row of each live key listed under the value, once each; only this table's primary index and (when created) this field's index change; a failure changes no index |
| Database.JsonDatabase.Transaction | pysimdb/database.py:188-201 | a body that completes leaves its state; one that raises re-raises the same error and leaves `Rollback`'s state |
| Query.ComparisonsConsistent | pysimdb/query_builder.py:35-42 | on comparable values `<=` is `<` or equal, `>=` is `>` or equal, and `<` excludes `>` and equality |
| Query.Evaluable | pysimdb/query_builder.py:29-45 | "=", "!=" and an unknown operator never raise; a comparison raises unless both sides are non-None and comparable; a substring "in" needs a string field |
| Query.Holds | pysimdb/query_builder.py:29-45 | an unknown operator holds for no row; "=" holds only when the field equals the value, and then the row has the field unless the value is None; a list "in" holds only for a listed value |
| Query.Check | pysimdb/query_builder.py:86-88 | a row raises only when some condition cannot be evaluated on it and always has a verdict when every condition can; a rejected row fails some evaluable condition |
| Query.PassesIsConjunction | pysimdb/query_builder.py:29-45 | a row passes the conditions exactly when each can be evaluated on it and holds |
| Query.Survivors | pysimdb/query_builder.py:88 | the kept rows are exactly the input rows that pass |
| Query.SequentialFilterIsConjunction | pysimdb/query_builder.py:86-88 | filtering condition by condition equals filtering by the conjunction, TypeError included |
| Query.ApplyConditions | pysimdb/query_builder.py:86-88 | filtering never adds rows: the result is no longer than the input and holds only input rows |
| Query.UnknownOpRejectsAll | pysimdb/query_builder.py:45 | an unknown operator keeps no row |
| Query.IndexPathAgreesWithScan | pysimdb/query_builder.py:73-88 | when the fetched rows are table rows including every passing row, the filter keeps the same set of rows as on the full scan, and raises on neither |
| Query.ExactLookupCoversMatches | pysimdb/query_builder.py:73-88 | with unique keys, an exact index, a non-None value and its "=" condition, the lookup's rows are table rows including every passing row |
| Query.IndexPathSameRows | pysimdb/query_builder.py:73-88 | with unique keys, an exact index, a non-None value and its "=" condition, the index path keeps the same rows as the full scan, each as often (the same multiset), possibly in another order |
| Query.LookupDistinct | pysimdb/database.py:186 | rows fetched through the keyed primary index are pairwise distinct |
| Query.NullEqualityMissesRows | pysimdb/query_builder.py:75-84 | an "=" filter on None through the index fetches no rows, while the scan keeps the rows lacking the field |
| Query.JoinOne | pysimdb/query_builder.py:95-98 | one base row yields exactly its merges with the other rows whose join field is equal |
| Query.JoinRows | pysimdb/query_builder.py:91-99 | the join holds exactly the merges of base/other pairs with equal join fields |
| Query.JoinRowsAppend | pysimdb/query_builder.py:94-99 | the output is in base-major order |
| Query.JoinedRowFields | pysimdb/query_builder.py:97 | a merged row has both rows' fields, the other row's value winning |
| Query.JoinLoop | pysimdb/query_builder.py:93-99 | the nested loop builds exactly the join |
| Query.OrderRows | pysimdb/query_builder.py:102-103 | ordering permutes the rows, or raises TypeError on incomparable keys |
| Query.OrderRowsSortsStably | pysimdb/query_builder.py:102-103 | an ordering that succeeds is sorted and stable |
| Query.PaginateWindow | pysimdb/query_builder.py:106-109 | with non-negative arguments the page has `min(limit, max(0, n - offset))` rows, the i-th being row `offset + i` |
| Query.PaginateNegative | pysimdb/query_builder.py:106-109 | negative offsets and limits count from the end, as Python slices do |
| Query.Paginate | pysimdb/query_builder.py:105-109 | the page is a contiguous run of the rows, starting where the offset slice starts; without a limit it runs to the end |
| Query.PageRows | pysimdb/query_builder.py:105-109 | a page holds only rows of the sequence it was cut from |
| Query.OrderKeepsRows | pysimdb/query_builder.py:102-103 | a successful ordering returns as many rows as it was given, and only those |
| Query.Project | pysimdb/query_builder.py:112-113 | each row keeps exactly the selected columns it has, with unchanged values; no selection keeps rows whole |
| Query.RunPlan | pysimdb/query_builder.py:86-113 | running the stages step by step (filter, nested-loop join, order, page, project) gives exactly `Execute`'s result, TypeError included |
| Query.Execute | pysimdb/query_builder.py:86-113 | a filter that raises makes the whole query fail with TypeError |
| Query.ExecuteWithoutJoin | pysimdb/query_builder.py:86-113 | without a join a query returns at most as many rows as the base, and without a projection only base rows |
| Query.LimitOneGivesAtMostOne | pysimdb/query_builder.py:128-129 | with limit 1 a query returns at most one row |
| Query.FilterOnlyQuery | pysimdb/query_builder.py:86-88 | a query with only conditions returns the passing base rows in order |
| Query.AgeAbove25KeepsTwo | tests.py:80-81 | of users aged 30, 25 and 35, `age > 25` keeps two |
| Query.UserWithTwoPosts | tests.py:107-115 | one user joined with two posts gives two rows carrying `title` |
| Query.PutFilter | pysimdb/query_builder.py:48-50 | the last "=" value for a field wins and other fields keep theirs; a known field keeps its place, a new one goes last |
| Query.FirstOf | pysimdb/query_builder.py:130 | the first row, or None exactly when there is none |
| Query.QueryBuilder.constructor | pysimdb/query_builder.py:9-22 | a fresh builder has no columns, conditions, filters, order, limit, offset or join |
| Query.QueryBuilder.Select | pysimdb/query_builder.py:24-26 | sets the columns, returns the builder, changes nothing else |
| Query.QueryBuilder.Where | pysimdb/query_builder.py:28-51 | appends the condition; an "=" also records the field's filter value; returns the builder |
| Query.QueryBuilder.OrderBy | pysimdb/query_builder.py:53-56 | sets the order field and direction, returns the builder |
| Query.QueryBuilder.Limit | pysimdb/query_builder.py:58-60 | sets the limit, returns the builder |
| Query.QueryBuilder.Offset | pysimdb/query_builder.py:62-64 | sets the offset, returns the builder |
| Query.QueryBuilder.Join | pysimdb/query_builder.py:66-70 | sets the join table and fields, returns the builder |
| Query.QueryBuilder.FetchBase | pysimdb/query_builder.py:73-84 | the base rows are all the table's rows, or the live rows (once per key) of a successful index lookup for an equality filter; they are always table rows; storage and schemas are unchanged |
| Query.QueryBuilder.All | pysimdb/query_builder.py:72-115 | the base rows are fetched as `FetchBase` states, and the result is the pipeline `Execute` applied to them and the join table's rows; storage and schemas are unchanged |
| Query.QueryBuilder.First | pysimdb/query_builder.py:128-130 | sets the limit to 1 for good, fetches the base rows as `FetchBase` states, and returns the first result row, or None; storage and schemas are unchanged |

## Left out

- Storage (`pysimdb/storage.py`) is not part of this model. This covers JSON encoding, the temporary-file write with atomic rename, and the module-wide lock. Documents are a map from table name to rows, and a missing document loads as no rows.
- The filesystem side of `drop_table` and `transaction` is not modelled. Removing the file is removing the table from the map. The snapshot is a copy of the map.
- The transaction body is a function from stored documents to stored documents plus an optional exception. What it does to in-memory schemas and indexes is not modelled. The exception is an opaque string.
- Python's cross-type equality (`True == 1`, `1 == 1.0`) and hashing are not modelled. Equality of values is structural.
- Floats are opaque tokens. A comparison or sort involving a float is reported as TypeError, although Python orders floats with integers.
- Records and index sets have no key or iteration order. This affects the field order of projected rows and the order of `get_rows_by_index`'s result.
- Nested values (lists or dicts inside records), and `in` against a dict or set operand, are not modelled. `in` is modelled against a list of values and as substring containment between strings.
- Error messages are not modelled. Only the kind of each error is kept.
- The unreachable second tail of `all()` (pysimdb/query_builder.py:117-126) is not modelled.
- `query()` (pysimdb/database.py:88-91) only calls the builder's constructor, which is modelled.
- Database.JsonDatabase.GetRowsByIndex: states which rows are returned and how often, not in which order, because Python iterates a set.
- Query.QueryBuilder.FetchBase: does not state that every earlier equality filter's lookup failed.
