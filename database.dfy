/**
 * The table engine (pysimdb/database.py): the `JsonDatabase` class over an
 * abstract storage map, the effect of `insert` as a function of the engine's
 * state, and snapshot/rollback transactions.
 */
module Database {
  import opened Wrappers
  import opened Values
  import opened Schema
  import opened Tables
  import opened SecondaryIndex

  // ---------------------------------------------------------------------------
  // insert, as a function of the engine's state
  // ---------------------------------------------------------------------------

  /** The part of the engine's state a call changes, and what it returns. */
  datatype Effect = Effect(store: Store, indexes: map<string, RowIndex>,
                           secondary: map<string, FieldIndexes>, outcome: Outcome<DbError>)

  function SchemaIn(schemas: map<string, Option<TableSchema>>, table: string): Option<TableSchema>
  {
    if table in schemas then schemas[table] else None
  }

  /** Only `table`'s document, primary index and secondary indexes differ
      between the state and the effect, and every table keeps its indexed
      fields. */
  ghost predicate OnlyTable(store: Store, indexes: map<string, RowIndex>, secondary: map<string, FieldIndexes>,
                            e: Effect, table: string)
  {
    && (forall t :: t != table ==> (t in e.store <==> t in store) && Load(e.store, t) == Load(store, t))
    && (forall t :: t != table ==> (t in e.indexes <==> t in indexes))
    && (forall t :: t != table && t in indexes ==> e.indexes[t] == indexes[t])
    && e.secondary.Keys == secondary.Keys
    && (forall t :: t in secondary ==> e.secondary[t].Keys == secondary[t].Keys)
    && (forall t :: t != table && t in secondary ==> e.secondary[t] == secondary[t])
  }

  /** `insert(table, record, if_exists)`. */
  function InsertEffect(store: Store, schemas: map<string, Option<TableSchema>>,
                        indexes: map<string, RowIndex>, secondary: map<string, FieldIndexes>,
                        table: string, record: Record, ifExists: string): (r: Effect)
    ensures r.outcome.Pass? ==> table in r.store && table in r.indexes
  {
    var schema := SchemaIn(schemas, table);
    if schema.Some? && Validate(schema.value, record).Fail? then
      Effect(store, indexes, secondary, Fail(Invalid(Validate(schema.value, record).error)))
    else
      var data := Load(store, table);
      var pk := PrimaryKeyOf(schema);
      match BuildRowIndex(schema, data)
      case None => Effect(store, indexes, secondary, Fail(KeyMissing(pk.value)))
      case Some(rowIndex) =>
        var indexes1 := indexes[table := rowIndex];
        if pk.None? then AppendEffect(store, schema, indexes1, secondary, table, record)
        else
          var key := pk.value;
          if key !in record then
            Effect(store, indexes1, secondary, Fail(PrimaryKeyRequired(key)))
          else if record[key] !in rowIndex then AppendEffect(store, schema, indexes1, secondary, table, record)
          else if ifExists == "error" then
            Effect(store, indexes1, secondary, Fail(DuplicateKey(key, record[key])))
          else if ifExists == "ignore" then
            Effect(store, indexes1, secondary, Pass)
          else if ifExists == "replace" then
            ReplaceEffect(store, schema, indexes1, secondary, table, record, key)
          else
            // an unrecognised mode falls through to the append
            AppendEffect(store, schema, indexes1, secondary, table, record)
  }

  /** The "replace" branch: overwrite the first row with the record's key,
      save, rebuild; the secondary indexes are not touched. */
  function ReplaceEffect(store: Store, schema: Option<TableSchema>, indexes: map<string, RowIndex>,
                         secondary: map<string, FieldIndexes>, table: string, record: Record,
                         pk: string): (r: Effect)
    requires pk in record
    ensures r.secondary == secondary && |Load(r.store, table)| == |Load(store, table)|
  {
    var data := Load(store, table);
    var i := FirstWithKey(data, pk, record[pk]);
    var data' := if i < |data| then data[i := record] else data;
    match BuildRowIndex(schema, data')
    case None => Effect(store[table := data'], indexes, secondary, Fail(KeyMissing(pk)))
    case Some(rowIndex) => Effect(store[table := data'], indexes[table := rowIndex], secondary, Pass)
  }

  /** The append branch: add the record at the end, save, rebuild, and list
      the record's key in every secondary index of a keyed table. */
  function AppendEffect(store: Store, schema: Option<TableSchema>, indexes: map<string, RowIndex>,
                        secondary: map<string, FieldIndexes>, table: string, record: Record): (r: Effect)
    ensures Load(r.store, table) == Load(store, table) + [record]
  {
    var data' := Load(store, table) + [record];
    var pk := PrimaryKeyOf(schema);
    match BuildRowIndex(schema, data')
    case None => Effect(store[table := data'], indexes, secondary, Fail(KeyMissing(pk.value)))
    case Some(rowIndex) =>
      var secondary' :=
        if pk.Some? && table in secondary && Get(record, pk.value) != Null then
          secondary[table := PatchAll(secondary[table], AddRow(record, Get(record, pk.value)))]
        else secondary;
      Effect(store[table := data'], indexes[table := rowIndex], secondary', Pass)
  }

  /** `insert` touches only the named table: other documents and their
      indexes are unchanged, and no secondary index is created or dropped. */
  lemma InsertEffectOnlyTable(store: Store, schemas: map<string, Option<TableSchema>>,
                              indexes: map<string, RowIndex>, secondary: map<string, FieldIndexes>,
                              table: string, record: Record, ifExists: string)
    ensures OnlyTable(store, indexes, secondary,
                      InsertEffect(store, schemas, indexes, secondary, table, record, ifExists), table)
  {
    var schema := SchemaIn(schemas, table);
    var e := InsertEffect(store, schemas, indexes, secondary, table, record, ifExists);
    var data := Load(store, table);
    var pk := PrimaryKeyOf(schema);
    if schema.Some? && Validate(schema.value, record).Fail? {
      assert e.store == store && e.indexes == indexes && e.secondary == secondary;
    } else if BuildRowIndex(schema, data).None? {
      assert e.store == store && e.indexes == indexes && e.secondary == secondary;
    } else {
      var rowIndex := BuildRowIndex(schema, data).value;
      var indexes1 := indexes[table := rowIndex];
      if pk.None? || (pk.value in record && record[pk.value] !in rowIndex) ||
         (pk.value in record && ifExists != "error" && ifExists != "ignore" && ifExists != "replace") {
        assert e == AppendEffect(store, schema, indexes1, secondary, table, record);
        AppendEffectOnlyTable(store, schema, indexes1, secondary, table, record);
      } else if pk.value in record && ifExists == "replace" {
        assert e == ReplaceEffect(store, schema, indexes1, secondary, table, record, pk.value);
        ReplaceEffectOnlyTable(store, schema, indexes1, secondary, table, record, pk.value);
      } else {
        assert e.store == store && e.indexes == indexes1 && e.secondary == secondary;
      }
      ReindexedFrame(store, indexes, secondary, table, rowIndex, e);
    }
  }

  /** The "replace" branch touches only the named table. */
  lemma ReplaceEffectOnlyTable(store: Store, schema: Option<TableSchema>, indexes: map<string, RowIndex>,
                               secondary: map<string, FieldIndexes>, table: string, record: Record, pk: string)
    requires pk in record
    ensures OnlyTable(store, indexes, secondary,
                      ReplaceEffect(store, schema, indexes, secondary, table, record, pk), table)
  {
    var e := ReplaceEffect(store, schema, indexes, secondary, table, record, pk);
    assert SecondaryFrame(secondary, secondary, table);
    var rowIndex := BuildRowIndex(schema, Load(e.store, table));
    assert e == Effect(store[table := Load(e.store, table)], if rowIndex.Some? then indexes[table := rowIndex.value] else indexes,
                       secondary, e.outcome);
    SavedFrame(store, indexes, secondary, table, Load(e.store, table), rowIndex, secondary, e.outcome);
  }

  /** The append branch touches only the named table. */
  lemma AppendEffectOnlyTable(store: Store, schema: Option<TableSchema>, indexes: map<string, RowIndex>,
                              secondary: map<string, FieldIndexes>, table: string, record: Record)
    ensures OnlyTable(store, indexes, secondary, AppendEffect(store, schema, indexes, secondary, table, record), table)
  {
    var e := AppendEffect(store, schema, indexes, secondary, table, record);
    var data' := Load(store, table) + [record];
    var pk := PrimaryKeyOf(schema);
    assert SecondaryFrame(secondary, e.secondary, table) by {
      if pk.Some? && table in secondary && Get(record, pk.value) != Null && BuildRowIndex(schema, data').Some? {
        assert e.secondary == secondary[table := PatchAll(secondary[table], AddRow(record, Get(record, pk.value)))];
      } else {
        assert e.secondary == secondary;
      }
    }
    var rowIndex := BuildRowIndex(schema, data');
    assert e == Effect(store[table := data'], if rowIndex.Some? then indexes[table := rowIndex.value] else indexes,
                       e.secondary, e.outcome);
    SavedFrame(store, indexes, secondary, table, data', rowIndex, e.secondary, e.outcome);
  }

  /** Rebuilding the named table's row index first does not widen the frame. */
  lemma ReindexedFrame(store: Store, indexes: map<string, RowIndex>, secondary: map<string, FieldIndexes>,
                       table: string, rowIndex: RowIndex, e: Effect)
    requires OnlyTable(store, indexes[table := rowIndex], secondary, e, table)
    ensures OnlyTable(store, indexes, secondary, e, table)
  {
  }

  /** The append branch of `insert` on the engine's state: save, rebuild the
      primary index, then add the record's key to every secondary index. */
  method AppendState(store: Store, schema: Option<TableSchema>, indexes: map<string, RowIndex>,
                     secondary: map<string, FieldIndexes>, table: string, record: Record) returns (e: Effect)
    ensures e == AppendEffect(store, schema, indexes, secondary, table, record)
  {
    var pk := PrimaryKeyOf(schema);
    var data := Load(store, table) + [record];
    var built := BuildRowIndex(schema, data);
    if built.None? {
      return Effect(store[table := data], indexes, secondary, Fail(KeyMissing(pk.value)));
    }
    var secondary' := secondary;
    if pk.Some? && table in secondary {
      var pkValue := Get(record, pk.value);
      if pkValue != Null {
        var patched := PatchIndexes(secondary[table], AddRow(record, pkValue));
        secondary' := secondary[table := patched];
      }
    }
    e := Effect(store[table := data], indexes[table := built.value], secondary', Pass);
  }

  /** Some stored row of the table holds key value `v`. */
  predicate KeyTaken(data: seq<Record>, pk: string, v: Value)
  {
    exists i :: 0 <= i < |data| && Get(data[i], pk) == v
  }

  /** A record that fails validation is rejected before anything is loaded or
      saved: no table and no index changes. */
  lemma InsertInvalidChangesNothing(store: Store, schemas: map<string, Option<TableSchema>>,
                                    indexes: map<string, RowIndex>, secondary: map<string, FieldIndexes>,
                                    table: string, record: Record, ifExists: string)
    requires SchemaIn(schemas, table).Some? && Validate(SchemaIn(schemas, table).value, record).Fail?
    ensures var e := InsertEffect(store, schemas, indexes, secondary, table, record, ifExists);
      e.store == store && e.indexes == indexes && e.secondary == secondary &&
      e.outcome.Fail? && e.outcome.error.Invalid?
  {
  }

  /** With a colliding key, "error" raises DuplicateKey and "ignore" returns;
      either way the stored rows and the secondary indexes are unchanged. */
  lemma InsertDuplicateKeepsRows(store: Store, schemas: map<string, Option<TableSchema>>,
                                 indexes: map<string, RowIndex>, secondary: map<string, FieldIndexes>,
                                 table: string, record: Record, ifExists: string)
    requires ifExists == "error" || ifExists == "ignore"
    requires SchemaIn(schemas, table).Some? && SchemaIn(schemas, table).value.HasPrimaryKey()
    requires Validate(SchemaIn(schemas, table).value, record).Pass?
    requires var pk := SchemaIn(schemas, table).value.primaryKey.value;
      pk in record && AllHaveKey(Load(store, table), pk) && KeyTaken(Load(store, table), pk, record[pk])
    ensures var e := InsertEffect(store, schemas, indexes, secondary, table, record, ifExists);
      e.store == store && e.secondary == secondary &&
      e.outcome == if ifExists == "error" then
        Fail(DuplicateKey(SchemaIn(schemas, table).value.primaryKey.value,
                          record[SchemaIn(schemas, table).value.primaryKey.value]))
      else Pass
  {
    var pk := SchemaIn(schemas, table).value.primaryKey.value;
    PrimaryIndexHasKey(Load(store, table), pk, record[pk]);
  }

  /** "replace" overwrites the first row with the same key at its position;
      the table keeps its length and every other row, and the secondary
      indexes are left as they were, not patched. */
  lemma InsertReplaceInPlace(store: Store, schemas: map<string, Option<TableSchema>>,
                             indexes: map<string, RowIndex>, secondary: map<string, FieldIndexes>,
                             table: string, record: Record)
    requires SchemaIn(schemas, table).Some? && SchemaIn(schemas, table).value.HasPrimaryKey()
    requires Validate(SchemaIn(schemas, table).value, record).Pass?
    requires var pk := SchemaIn(schemas, table).value.primaryKey.value;
      pk in record && AllHaveKey(Load(store, table), pk) && KeyTaken(Load(store, table), pk, record[pk])
    ensures var pk := SchemaIn(schemas, table).value.primaryKey.value;
      var data := Load(store, table);
      var e := InsertEffect(store, schemas, indexes, secondary, table, record, "replace");
      var i := FirstWithKey(data, pk, record[pk]);
      && e.outcome == Pass && e.secondary == secondary
      && table in e.store && |e.store[table]| == |data|
      && i < |data| && e.store[table][i] == record
      && (forall j :: 0 <= j < |data| && j != i ==> e.store[table][j] == data[j])
      && (forall t :: t != table ==> Load(e.store, t) == Load(store, t))
  {
    var pk := SchemaIn(schemas, table).value.primaryKey.value;
    var data := Load(store, table);
    PrimaryIndexHasKey(data, pk, record[pk]);
    var i := FirstWithKey(data, pk, record[pk]);
    var data' := data[i := record];
    assert AllHaveKey(data', pk);
  }

  /** Without a collision the record is appended at the end, after the prior
      rows in their order; with a primary key, every secondary index of the
      table then lists the record's key under the record's value. */
  lemma InsertNewKeyAppends(store: Store, schemas: map<string, Option<TableSchema>>,
                            indexes: map<string, RowIndex>, secondary: map<string, FieldIndexes>,
                            table: string, record: Record, ifExists: string)
    requires var schema := SchemaIn(schemas, table);
      schema.Some? ==> schema.value.WellFormed() && Validate(schema.value, record).Pass?
    requires var pk := PrimaryKeyOf(SchemaIn(schemas, table));
      pk.Some? ==> AllHaveKey(Load(store, table), pk.value) && pk.value in record &&
                   !KeyTaken(Load(store, table), pk.value, record[pk.value])
    ensures var e := InsertEffect(store, schemas, indexes, secondary, table, record, ifExists);
      && e.outcome == Pass
      && e.store == store[table := Load(store, table) + [record]]
    ensures var e := InsertEffect(store, schemas, indexes, secondary, table, record, ifExists);
      var pk := PrimaryKeyOf(SchemaIn(schemas, table));
      pk.Some? ==> table in e.indexes && record[pk.value] in e.indexes[table] &&
                   e.indexes[table][record[pk.value]] == record
    ensures var e := InsertEffect(store, schemas, indexes, secondary, table, record, ifExists);
      var pk := PrimaryKeyOf(SchemaIn(schemas, table));
      pk.Some? && table in secondary ==>
        && table in e.secondary && e.secondary[table].Keys == secondary[table].Keys
        && (forall f :: f in secondary[table] && f in record ==>
              Members(e.secondary[table][f], record[f]) == Members(secondary[table][f], record[f]) + {record[pk.value]})
        && (forall f, w :: f in secondary[table] && (f !in record || w != record[f]) ==>
              Members(e.secondary[table][f], w) == Members(secondary[table][f], w))
    ensures OnlyTable(store, indexes, secondary,
                      InsertEffect(store, schemas, indexes, secondary, table, record, ifExists), table)
  {
    InsertEffectOnlyTable(store, schemas, indexes, secondary, table, record, ifExists);
    var schema := SchemaIn(schemas, table);
    var data := Load(store, table);
    var pk := PrimaryKeyOf(schema);
    if pk.Some? {
      var key := pk.value;
      PrimaryIndexHasKey(data, key, record[key]);
      assert AllHaveKey(data + [record], key) by {
        forall i | 0 <= i < |data + [record]| ensures key in (data + [record])[i] {
          if i < |data| {
            assert (data + [record])[i] == data[i];
          }
        }
      }
      assert record[key] != Null by {
        var j :| 0 <= j < |schema.value.fields| && schema.value.fields[j].0 == key;
        ValidateAcceptsExactly(schema.value, record);
      }
      var rowIndex := PrimaryIndex(data, key).value;
      assert BuildRowIndex(schema, data) == Some(rowIndex);
      assert record[key] !in rowIndex;
      assert BuildRowIndex(schema, data + [record]).Some?;
      assert (data + [record])[..|data|] == data;
      var e := InsertEffect(store, schemas, indexes, secondary, table, record, ifExists);
      assert e.indexes[table] == rowIndex[record[key] := record];
      if table in secondary {
        assert e.secondary[table] == PatchAll(secondary[table], AddRow(record, record[key]));
        forall f | f in secondary[table] && f in record
          ensures e.secondary[table][f] == AddKey(secondary[table][f], record[f], record[key])
        {
        }
      }
    }
  }


  /** An unrecognised `if_exists` value with a colliding key falls through to
      the append: the table then holds two rows with the same key. */
  lemma InsertUnknownModeDuplicates(store: Store, schemas: map<string, Option<TableSchema>>,
                                    indexes: map<string, RowIndex>, secondary: map<string, FieldIndexes>,
                                    table: string, record: Record, ifExists: string)
    requires ifExists != "error" && ifExists != "ignore" && ifExists != "replace"
    requires SchemaIn(schemas, table).Some? && SchemaIn(schemas, table).value.HasPrimaryKey()
    requires Validate(SchemaIn(schemas, table).value, record).Pass?
    requires var pk := SchemaIn(schemas, table).value.primaryKey.value;
      pk in record && AllHaveKey(Load(store, table), pk) && KeyTaken(Load(store, table), pk, record[pk])
    ensures var pk := SchemaIn(schemas, table).value.primaryKey.value;
      var e := InsertEffect(store, schemas, indexes, secondary, table, record, ifExists);
      && e.outcome == Pass
      && e.store == store[table := Load(store, table) + [record]]
      && exists i, j :: 0 <= i < j < |e.store[table]| && Get(e.store[table][i], pk) == Get(e.store[table][j], pk)
  {
    var pk := SchemaIn(schemas, table).value.primaryKey.value;
    var schema := SchemaIn(schemas, table);
    var data := Load(store, table);
    PrimaryIndexHasKey(data, pk, record[pk]);
    assert AllHaveKey(data + [record], pk) by {
      forall i | 0 <= i < |data + [record]| ensures pk in (data + [record])[i] {
        if i < |data| {
          assert (data + [record])[i] == data[i];
        }
      }
    }
    var rowIndex := PrimaryIndex(data, pk).value;
    assert BuildRowIndex(schema, data) == Some(rowIndex);
    assert record[pk] in rowIndex;
    assert BuildRowIndex(schema, data + [record]).Some?;
    var i :| 0 <= i < |data| && Get(data[i], pk) == record[pk];
    var after := data + [record];
    var e := InsertEffect(store, schemas, indexes, secondary, table, record, ifExists);
    assert PrimaryKeyOf(schema) == Some(pk);
    assert e == AppendEffect(store, schema, indexes[table := rowIndex], secondary, table, record);
    assert e.outcome == Pass;
    assert e.store[table] == after;
    assert 0 <= i < |data| < |e.store[table]|;
    assert Get(e.store[table][i], pk) == Get(e.store[table][|data|], pk);
  }

  // ---------------------------------------------------------------------------
  // Transactions
  // ---------------------------------------------------------------------------

  /** What a failed transaction leaves: every document that existed at the
      snapshot is restored; documents created by the body stay as it left them. */
  function Rollback(after: Store, snapshot: Store): (r: Store)
    ensures r.Keys == after.Keys + snapshot.Keys
    ensures forall t :: t in snapshot ==> r[t] == snapshot[t]
    ensures forall t :: t in after && t !in snapshot ==> r[t] == after[t]
  {
    after + snapshot
  }

  /** The documents part-way through a rollback: those of the snapshot not
      in `todo` are written back, the rest are as the body left them. */
  ghost predicate RestoredExcept(after: Store, snapshot: Store, todo: set<string>, restored: Store)
  {
    && todo <= snapshot.Keys
    && (forall t :: t in restored <==> t in after || (t in snapshot && t !in todo))
    && (forall t :: t in snapshot && t !in todo ==> restored[t] == snapshot[t])
    && (forall t :: t in restored && (t !in snapshot || t in todo) ==> restored[t] == after[t])
  }

  lemma RestoreStep(after: Store, snapshot: Store, todo: set<string>, restored: Store, t: string)
    requires RestoredExcept(after, snapshot, todo, restored) && t in todo
    ensures RestoredExcept(after, snapshot, todo - {t}, restored[t := snapshot[t]])
  {
  }

  lemma RestoreDone(after: Store, snapshot: Store, restored: Store)
    requires RestoredExcept(after, snapshot, {}, restored)
    ensures restored == Rollback(after, snapshot)
  {
    assert restored.Keys == Rollback(after, snapshot).Keys;
  }

  /** The loop of `transaction` after a failure: writes every snapshot
      document back over what the body left. */
  method RestoreSnapshot(after: Store, snapshot: Store) returns (restored: Store)
    ensures restored == Rollback(after, snapshot)
  {
    restored := after;
    var todo := snapshot.Keys;
    while todo != {}
      invariant RestoredExcept(after, snapshot, todo, restored)
      decreases |todo|
    {
      var t :| t in todo;
      RestoreStep(after, snapshot, todo, restored, t);
      restored := restored[t := snapshot[t]];
      todo := todo - {t};
    }
    RestoreDone(after, snapshot, restored);
  }

  /** `self.secondary_indexes.get(table, {})`. */
  function IndexesOf(secondary: map<string, FieldIndexes>, table: string): FieldIndexes
  {
    if table in secondary then secondary[table] else map[]
  }

  /** The transaction body, as a step from storage state to storage state that
      either completes or raises. */
  datatype BodyResult = BodyResult(after: Store, raised: Option<string>)

  /** Some stored row matches the `where` filter. */
  predicate AnyMatches(data: seq<Record>, where: map<string, Value>)
  {
    exists i :: 0 <= i < |data| && Matches(data[i], where)
  }

  /** `update(table, where, updates)`: every matching row receives the patch
      (not re-validated); a keyed table's secondary indexes move each updated
      row's key; the table is saved and re-indexed only if some row matched. */
  function UpdateEffect(store: Store, schemas: map<string, Option<TableSchema>>,
                        indexes: map<string, RowIndex>, secondary: map<string, FieldIndexes>,
                        table: string, where: map<string, Value>, patch: Record): (r: Effect)
    ensures |Load(r.store, table)| == |Load(store, table)|
  {
    var schema := SchemaIn(schemas, table);
    var data := Load(store, table);
    var pk := PrimaryKeyOf(schema);
    var secondary' :=
      if pk.Some? && table in secondary
      then secondary[table := UpdatedIndexes(secondary[table], data, where, patch, pk.value)]
      else secondary;
    if !AnyMatches(data, where) then Effect(store, indexes, secondary', Pass)
    else
      var data' := UpdatedRows(data, where, patch);
      match BuildRowIndex(schema, data')
      case None => Effect(store[table := data'], indexes, secondary', Fail(KeyMissing(pk.value)))
      case Some(rowIndex) => Effect(store[table := data'], indexes[table := rowIndex], secondary', Pass)
  }

  /** `update` touches only the named table: other documents, their row
      indexes and their secondary indexes are unchanged, and no secondary
      index is created or dropped. */
  lemma UpdateEffectOnlyTable(store: Store, schemas: map<string, Option<TableSchema>>,
                              indexes: map<string, RowIndex>, secondary: map<string, FieldIndexes>,
                              table: string, where: map<string, Value>, patch: Record)
    ensures OnlyTable(store, indexes, secondary,
                      UpdateEffect(store, schemas, indexes, secondary, table, where, patch), table)
  {
    var schema := SchemaIn(schemas, table);
    var data := Load(store, table);
    var pk := PrimaryKeyOf(schema);
    var secondary' :=
      if pk.Some? && table in secondary
      then secondary[table := UpdatedIndexes(secondary[table], data, where, patch, pk.value)]
      else secondary;
    assert SecondaryFrame(secondary, secondary', table);
    var e := UpdateEffect(store, schemas, indexes, secondary, table, where, patch);
    if !AnyMatches(data, where) {
      assert e == Effect(store, indexes, secondary', Pass);
    } else {
      var data' := UpdatedRows(data, where, patch);
      match BuildRowIndex(schema, data')
      case None =>
        assert e == Effect(store[table := data'], indexes, secondary', Fail(KeyMissing(pk.value)));
        SavedFrame(store, indexes, secondary, table, data', None, secondary', e.outcome);
      case Some(rowIndex) =>
        assert e == Effect(store[table := data'], indexes[table := rowIndex], secondary', Pass);
        SavedFrame(store, indexes, secondary, table, data', Some(rowIndex), secondary', e.outcome);
    }
  }

  /** The secondary-index part of `OnlyTable`. */
  ghost predicate SecondaryFrame(secondary: map<string, FieldIndexes>, secondary': map<string, FieldIndexes>,
                                 table: string)
  {
    && secondary'.Keys == secondary.Keys
    && (forall t :: t in secondary ==> secondary'[t].Keys == secondary[t].Keys)
    && (forall t :: t != table && t in secondary ==> secondary'[t] == secondary[t])
  }

  /** Saving rows under `table` and re-indexing it touches no other table. */
  lemma SavedFrame(store: Store, indexes: map<string, RowIndex>, secondary: map<string, FieldIndexes>,
                   table: string, data': seq<Record>, rowIndex: Option<RowIndex>,
                   secondary': map<string, FieldIndexes>, outcome: Outcome<DbError>)
    requires SecondaryFrame(secondary, secondary', table)
    ensures var indexes' := if rowIndex.Some? then indexes[table := rowIndex.value] else indexes;
      OnlyTable(store, indexes, secondary, Effect(store[table := data'], indexes', secondary', outcome), table)
  {
  }

  /** With no matching row the index patching of `update` changes nothing. */
  lemma {:induction false} UpdatedIndexesNoMatch(indexes: FieldIndexes, data: seq<Record>,
                                                 where: map<string, Value>, patch: Record, pk: string)
    requires !AnyMatches(data, where)
    ensures UpdatedIndexes(indexes, data, where, patch, pk) == indexes
  {
    if data != [] {
      var init := data[..|data| - 1];
      assert forall i :: 0 <= i < |init| ==> init[i] == data[i];
      UpdatedIndexesNoMatch(indexes, init, where, patch, pk);
      assert !Matches(data[|data| - 1], where);
    }
  }

  /** When some row matches, `update` saves the table with every matching row
      merged with the patch (the patch's fields win) and the others unchanged,
      in the same positions; no other table changes. */
  lemma UpdateRewritesMatches(store: Store, schemas: map<string, Option<TableSchema>>,
                              indexes: map<string, RowIndex>, secondary: map<string, FieldIndexes>,
                              table: string, where: map<string, Value>, patch: Record)
    requires AnyMatches(Load(store, table), where)
    ensures var data := Load(store, table);
      var e := UpdateEffect(store, schemas, indexes, secondary, table, where, patch);
      && Load(e.store, table) == UpdatedRows(data, where, patch)
      && (forall t :: t != table ==> Load(e.store, t) == Load(store, t))
      && forall i :: 0 <= i < |data| ==>
           e.store[table][i] == if Matches(data[i], where) then data[i] + patch else data[i]
  {
  }

  /** When no row matches, `update` saves nothing and changes no index. */
  lemma UpdateNoMatchChangesNothing(store: Store, schemas: map<string, Option<TableSchema>>,
                                    indexes: map<string, RowIndex>, secondary: map<string, FieldIndexes>,
                                    table: string, where: map<string, Value>, patch: Record)
    requires !AnyMatches(Load(store, table), where)
    ensures UpdateEffect(store, schemas, indexes, secondary, table, where, patch) ==
            Effect(store, indexes, secondary, Pass)
  {
    var data := Load(store, table);
    var pk := PrimaryKeyOf(SchemaIn(schemas, table));
    if pk.Some? && table in secondary {
      UpdatedIndexesNoMatch(secondary[table], data, where, patch, pk.value);
      assert secondary[table := secondary[table]] == secondary;
    }
  }

  /** `update` does not validate: on a table whose schema types `age` as int,
      a patch writing a string is saved, and the stored row then fails
      validation. */
  lemma UpdateSkipsValidation()
    ensures var schema := TableSchema([("id", IntType), ("age", IntType)], Some("id"));
      var row := map["id" := Int(1), "age" := Int(30)];
      var e := UpdateEffect(map["users" := [row]], map["users" := Some(schema)], map[], map[],
                            "users", map["id" := Int(1)], map["age" := Str("x")]);
      && e.outcome == Pass
      && e.store["users"] == [row + map["age" := Str("x")]]
      && Validate(schema, e.store["users"][0]).Fail?
  {
    var schema := TableSchema([("id", IntType), ("age", IntType)], Some("id"));
    var row := map["id" := Int(1), "age" := Int(30)];
    var where := map["id" := Int(1)];
    assert Matches(row, where);
    assert [row][0] == row;
    assert AnyMatches([row], where);
    var e := UpdateEffect(map["users" := [row]], map["users" := Some(schema)], map[], map[],
                          "users", where, map["age" := Str("x")]);
    var updated := UpdatedRows([row], where, map["age" := Str("x")]);
    assert updated == [row + map["age" := Str("x")]];
    assert AllHaveKey(updated, "id");
    assert e.outcome == Pass;
    assert e.store["users"] == updated;
    ValidateAcceptsExactly(schema, updated[0]);
    assert !IsInstance(updated[0][schema.fields[1].0], schema.fields[1].1);
  }

  /** The loop of `update` over the stored rows: merges the patch into each
      matching row and, for a keyed table, moves the row's key in every
      secondary index. */
  method UpdateRows(data: seq<Record>, where: map<string, Value>, patch: Record,
                    indexes: FieldIndexes, pk: Option<string>)
    returns (rows: seq<Record>, out: FieldIndexes, changed: bool)
    ensures rows == UpdatedRows(data, where, patch)
    ensures out == if pk.Some? then UpdatedIndexes(indexes, data, where, patch, pk.value) else indexes
    ensures changed <==> AnyMatches(data, where)
  {
    rows := data;
    out := indexes;
    changed := false;
    var i := 0;
    while i < |rows|
      invariant i <= |rows| == |data|
      invariant forall j :: 0 <= j < i ==> rows[j] == UpdatedRows(data, where, patch)[j]
      invariant forall j :: i <= j < |data| ==> rows[j] == data[j]
      invariant changed <==> exists j :: 0 <= j < i && Matches(data[j], where)
      invariant out == if pk.Some? then UpdatedIndexes(indexes, data[..i], where, patch, pk.value) else indexes
    {
      assert data[..i + 1][..i] == data[..i];
      if Matches(rows[i], where) {
        var before := rows[i];
        rows := rows[i := before + patch];
        if pk.Some? {
          out := PatchIndexes(out, ChangeRow(before, rows[i], Get(rows[i], pk.value)));
        }
        changed := true;
      }
      i := i + 1;
    }
    assert data[..i] == data;
  }

  /** `update` on the engine's state: the loop over the rows, then the save
      and the rebuild of the primary index when a row matched. */
  method UpdateState(store: Store, schemas: map<string, Option<TableSchema>>,
                     indexes: map<string, RowIndex>, secondary: map<string, FieldIndexes>,
                     table: string, where: map<string, Value>, patch: Record) returns (e: Effect)
    ensures e == UpdateEffect(store, schemas, indexes, secondary, table, where, patch)
  {
    var schema := SchemaIn(schemas, table);
    var data := Load(store, table);
    var pk := PrimaryKeyOf(schema);
    var maintain := pk.Some? && table in secondary;
    var rows, sec, changed := UpdateRows(data, where, patch,
                                         if maintain then secondary[table] else map[],
                                         if maintain then pk else None);
    var secondary' := if maintain then secondary[table := sec] else secondary;
    e := Effect(store, indexes, secondary', Pass);
    if changed {
      var built := BuildRowIndex(schema, rows);
      if built.Some? {
        e := Effect(store[table := rows], indexes[table := built.value], secondary', Pass);
      } else {
        e := Effect(store[table := rows], indexes, secondary', Fail(KeyMissing(pk.value)));
      }
    }
  }

  /** The index metadata names exactly the secondary indexes maintained. */
  ghost predicate Coherent(secondary: map<string, FieldIndexes>, indexedFields: map<string, set<string>>)
  {
    && (forall t :: t in secondary <==> t in indexedFields)
    && (forall t :: t in secondary ==> secondary[t].Keys == indexedFields[t])
  }

  /** Patching a table's indexes in place, field set unchanged, keeps the
      metadata coherent. */
  lemma CoherentAfterPatch(secondary: map<string, FieldIndexes>, indexedFields: map<string, set<string>>,
                           table: string, patched: FieldIndexes)
    requires Coherent(secondary, indexedFields)
    requires table in secondary && patched.Keys == secondary[table].Keys
    ensures Coherent(secondary[table := patched], indexedFields)
  {
  }

  /** `update` patches the indexes of a table in place and never adds or
      removes an indexed field, so the metadata stays coherent. */
  lemma UpdateKeepsCoherent(store: Store, schemas: map<string, Option<TableSchema>>,
                            indexes: map<string, RowIndex>, secondary: map<string, FieldIndexes>,
                            indexedFields: map<string, set<string>>,
                            table: string, where: map<string, Value>, patch: Record)
    requires Coherent(secondary, indexedFields)
    ensures Coherent(UpdateEffect(store, schemas, indexes, secondary, table, where, patch).secondary, indexedFields)
  {
    var pk := PrimaryKeyOf(SchemaIn(schemas, table));
    if pk.Some? && table in secondary {
      CoherentAfterPatch(secondary, indexedFields, table,
                         UpdatedIndexes(secondary[table], Load(store, table), where, patch, pk.value));
    }
  }

  /** Appending patches the indexes of a table in place and never adds or
      removes an indexed field, so the metadata stays coherent. */
  lemma AppendKeepsCoherent(store: Store, schema: Option<TableSchema>, indexes: map<string, RowIndex>,
                            secondary: map<string, FieldIndexes>, indexedFields: map<string, set<string>>,
                            table: string, record: Record)
    requires Coherent(secondary, indexedFields)
    ensures Coherent(AppendEffect(store, schema, indexes, secondary, table, record).secondary, indexedFields)
  {
    var pk := PrimaryKeyOf(schema);
    if pk.Some? && table in secondary && Get(record, pk.value) != Null {
      CoherentAfterPatch(secondary, indexedFields, table,
                         PatchAll(secondary[table], AddRow(record, Get(record, pk.value))));
    }
  }

  /** Adding one field's index to a table, and the field to its metadata,
      keeps the metadata coherent. */
  lemma CoherentAfterAdd(secondary: map<string, FieldIndexes>, indexedFields: map<string, set<string>>,
                         table: string, field: string, idx: ValueIndex)
    requires Coherent(secondary, indexedFields)
    ensures Coherent(secondary[table := IndexesOf(secondary, table)[field := idx]],
                     indexedFields[table := (if table in indexedFields then indexedFields[table] else {}) + {field}])
  {
  }

  // ---------------------------------------------------------------------------
  // The engine
  // ---------------------------------------------------------------------------

  class JsonDatabase {
    /** The persisted documents (`self.storage`). */
    var store: Store
    /** `self.schemas`: a table may be registered with no schema. */
    var schemas: map<string, Option<TableSchema>>
    /** `self.indexes`: the primary index of each table. */
    var indexes: map<string, RowIndex>
    /** `self.secondary_indexes`. */
    var secondary: map<string, FieldIndexes>
    /** `self.indexes_meta`: which fields are indexed, per table. */
    var indexedFields: map<string, set<string>>

    /** The index metadata names exactly the indexes maintained. */
    ghost predicate Valid()
      reads this
    {
      Coherent(secondary, indexedFields)
    }

    function SchemaOf(table: string): Option<TableSchema>
      reads this
    {
      SchemaIn(schemas, table)
    }

    constructor (documents: Store)
      ensures Valid()
      ensures store == documents && schemas == map[] && indexes == map[]
      ensures secondary == map[] && indexedFields == map[]
    {
      store := documents;
      schemas := map[];
      indexes := map[];
      secondary := map[];
      indexedFields := map[];
    }

    /** `_rebuild_index`: fails, changing nothing, when a stored row lacks the key. */
    method Reindex(table: string) returns (ok: bool)
      modifies this`indexes
      ensures ok == BuildRowIndex(SchemaOf(table), Load(store, table)).Some?
      ensures indexes == if ok then old(indexes)[table := BuildRowIndex(SchemaOf(table), Load(store, table)).value]
                         else old(indexes)
    {
      var built := BuildRowIndex(SchemaOf(table), Load(store, table));
      ok := built.Some?;
      if ok {
        indexes := indexes[table := built.value];
      }
    }

    /** `create_table`: registers the schema, creates an empty document if
        there is none, and rebuilds the primary index. */
    method CreateTable(table: string, schema: Option<TableSchema>) returns (r: Outcome<DbError>)
      requires Valid()
      modifies this
      ensures Valid()
      ensures schemas == old(schemas)[table := schema]
      ensures store == if table in old(store) then old(store) else old(store)[table := []]
      ensures secondary == old(secondary) && indexedFields == old(indexedFields)
      ensures var built := BuildRowIndex(schema, Load(store, table));
        if built.Some? then r == Pass && indexes == old(indexes)[table := built.value]
        else r == Fail(KeyMissing(PrimaryKeyOf(schema).value)) && indexes == old(indexes)
    {
      schemas := schemas[table := schema];
      if table !in store {
        store := store[table := []];
      }
      var ok := Reindex(table);
      r := if ok then Pass else Fail(KeyMissing(PrimaryKeyOf(schema).value));
    }

    /** `drop_table`: the document and all in-memory state of the table go. */
    method DropTable(table: string)
      requires Valid()
      modifies this
      ensures Valid()
      ensures store == old(store) - {table} && schemas == old(schemas) - {table}
      ensures indexes == old(indexes) - {table} && secondary == old(secondary) - {table}
      ensures indexedFields == old(indexedFields) - {table}
    {
      store := store - {table};
      schemas := schemas - {table};
      indexes := indexes - {table};
      secondary := secondary - {table};
      indexedFields := indexedFields - {table};
    }

    /** `insert(table, record, if_exists)`. */
    method Insert(table: string, record: Record, ifExists: string) returns (r: Outcome<DbError>)
      requires Valid()
      modifies this
      ensures Valid()
      ensures schemas == old(schemas) && indexedFields == old(indexedFields)
      ensures Effect(store, indexes, secondary, r) ==
        InsertEffect(old(store), old(schemas), old(indexes), old(secondary), table, record, ifExists)
    {
      var schema := SchemaOf(table);
      if schema.Some? {
        var check := Validate(schema.value, record);
        if check.Fail? {
          return Fail(Invalid(check.error));
        }
      }
      var pk := PrimaryKeyOf(schema);
      var ok := Reindex(table);
      if !ok {
        return Fail(KeyMissing(pk.value));
      }
      if pk.Some? {
        var key := pk.value;
        if key !in record {
          return Fail(PrimaryKeyRequired(key));
        }
        var taken := record[pk.value] in indexes[table];
        if taken {
          if ifExists == "error" {
            return Fail(DuplicateKey(pk.value, record[pk.value]));
          }
          if ifExists == "ignore" {
            return Pass;
          }
          if ifExists == "replace" {
            r := ReplaceRecord(table, record, pk.value);
            return;
          }
        }
      }
      r := AppendRecord(table, record);
    }

    /** The "replace" branch of `insert`. */
    method ReplaceRecord(table: string, record: Record, pk: string) returns (r: Outcome<DbError>)
      requires pk in record
      modifies this`store, this`indexes
      ensures Effect(store, indexes, secondary, r) ==
        ReplaceEffect(old(store), SchemaOf(table), old(indexes), secondary, table, record, pk)
    {
      var data := ReplaceFirstRow(Load(store, table), pk, record);
      ghost var was := Load(old(store), table);
      ghost var i := FirstWithKey(was, pk, record[pk]);
      assert data == if i < |was| then was[i := record] else was;
      store := store[table := data];
      var ok := Reindex(table);
      r := if ok then Pass else Fail(KeyMissing(pk));
    }

    /** The append branch of `insert`. */
    method AppendRecord(table: string, record: Record) returns (r: Outcome<DbError>)
      requires Valid()
      modifies this`store, this`indexes, this`secondary
      ensures Valid()
      ensures Effect(store, indexes, secondary, r) ==
        AppendEffect(old(store), SchemaOf(table), old(indexes), old(secondary), table, record)
    {
      var e := AppendState(store, SchemaOf(table), indexes, secondary, table, record);
      AppendKeepsCoherent(store, SchemaOf(table), indexes, secondary, indexedFields, table, record);
      store, indexes, secondary, r := e.store, e.indexes, e.secondary, e.outcome;
    }

    /** `select(table)`: the stored rows in order. */
    method Select(table: string) returns (rows: seq<Record>)
      ensures rows == Load(store, table)
    {
      rows := Load(store, table);
    }

    /** `update(table, where, updates)`: merges the patch into every matching
        row, moving each row's key between value sets in every secondary index
        of a keyed table; saves (and rebuilds) only if some row matched. The
        updated rows are not re-validated. */
    method Update(table: string, where: map<string, Value>, patch: Record) returns (r: Outcome<DbError>)
      requires Valid()
      modifies this
      ensures Valid()
      ensures schemas == old(schemas) && indexedFields == old(indexedFields)
      ensures Effect(store, indexes, secondary, r) ==
        UpdateEffect(old(store), old(schemas), old(indexes), old(secondary), table, where, patch)
    {
      var e := UpdateState(store, schemas, indexes, secondary, table, where, patch);
      UpdateKeepsCoherent(store, schemas, indexes, secondary, indexedFields, table, where, patch);
      store, indexes, secondary, r := e.store, e.indexes, e.secondary, e.outcome;
    }

    /** `delete(table, where)`: keeps the non-matching rows in order; if any row
        went, saves, removes the deleted keys from every secondary index of a
        keyed table, and rebuilds. */
    method Delete(table: string, where: map<string, Value>) returns (r: Outcome<DbError>)
      requires Valid()
      modifies this
      ensures Valid()
      ensures schemas == old(schemas) && indexedFields == old(indexedFields)
      ensures var data := Load(old(store), table);
        var kept := Kept(data, where);
        var pk := PrimaryKeyOf(SchemaOf(table));
        && store == (if |kept| != |data| then old(store)[table := kept] else old(store))
        && secondary == (if |kept| != |data| && pk.Some? && table in old(secondary)
             then old(secondary)[table := PatchAll(old(secondary)[table], RemoveKeys(RemovedKeys(data, where, pk.value)))]
             else old(secondary))
        && (|kept| != |data| && BuildRowIndex(SchemaOf(table), kept).None? ==>
              r == Fail(KeyMissing(pk.value)) && indexes == old(indexes))
        && (|kept| != |data| && BuildRowIndex(SchemaOf(table), kept).Some? ==>
              r == Pass && indexes == old(indexes)[table := BuildRowIndex(SchemaOf(table), kept).value])
        && (|kept| == |data| ==> r == Pass && indexes == old(indexes))
    {
      var data := Load(store, table);
      var pk := PrimaryKeyOf(SchemaOf(table));
      var kept, removed := SplitRows(data, where, pk);
      r := Pass;
      if |kept| != |data| {
        store := store[table := kept];
        if pk.Some? && table in secondary {
          var patched := PatchIndexes(secondary[table], RemoveKeys(removed));
          secondary := secondary[table := patched];
        }
        var ok := Reindex(table);
        if !ok {
          r := Fail(KeyMissing(pk.value));
        }
      }
    }

    /** `create_index(table, field)`: needs a primary key; builds the exact
        value-to-keys index from the rebuilt primary index and records it. */
    method CreateIndex(table: string, field: string) returns (r: Outcome<DbError>)
      requires Valid()
      modifies this
      ensures Valid()
      ensures store == old(store) && schemas == old(schemas)
      ensures PrimaryKeyOf(SchemaOf(table)).None? ==> (r == Fail(IndexNeedsPrimaryKey) && unchanged(this))
      ensures r.Fail? ==> secondary == old(secondary) && indexedFields == old(indexedFields) && indexes == old(indexes)
      ensures r.Pass? <==> PrimaryKeyOf(SchemaOf(table)).Some? && BuildRowIndex(SchemaOf(table), Load(store, table)).Some?
      ensures r.Pass? ==> (
        && table in indexes
        && BuildRowIndex(SchemaOf(table), Load(store, table)) == Some(indexes[table])
        && indexes == old(indexes)[table := indexes[table]]
        && table in secondary && field in secondary[table]
        && secondary == old(secondary)[table := IndexesOf(old(secondary), table)[field := secondary[table][field]]]
        && ExactIndex(secondary[table][field], indexes[table], field))
    {
      var pk := PrimaryKeyOf(SchemaOf(table));
      if pk.None? {
        return Fail(IndexNeedsPrimaryKey);
      }
      var ok := Reindex(table);
      if !ok {
        return Fail(KeyMissing(pk.value));
      }
      var idx := BuildValueIndex(indexes[table], field);
      CoherentAfterAdd(secondary, indexedFields, table, field, idx);
      secondary := secondary[table := IndexesOf(secondary, table)[field := idx]];
      var fields := if table in indexedFields then indexedFields[table] else {};
      indexedFields := indexedFields[table := fields + {field}];
      r := Pass;
    }

    /** `drop_index(table, field)`: a no-op when there is no such index. */
    method DropIndex(table: string, field: string)
      requires Valid()
      modifies this
      ensures Valid()
      ensures store == old(store) && schemas == old(schemas) && indexes == old(indexes)
      ensures secondary == if table in old(secondary) then old(secondary)[table := old(secondary)[table] - {field}]
                           else old(secondary)
      ensures indexedFields == if table in old(indexedFields)
                               then old(indexedFields)[table := old(indexedFields)[table] - {field}]
                               else old(indexedFields)
    {
      if table in secondary {
        secondary := secondary[table := secondary[table] - {field}];
      }
      if table in indexedFields {
        indexedFields := indexedFields[table := indexedFields[table] - {field}];
      }
    }

    /** `list_indexes(table)`: the fields whose index is maintained. */
    method ListIndexes(table: string) returns (fields: set<string>)
      requires Valid()
      ensures fields == if table in secondary then secondary[table].Keys else {}
    {
      fields := if table in indexedFields then indexedFields[table] else {};
    }

    /** `get_rows_by_index(table, field, value)`: creates the index on the fly
        if it is missing, rebuilds the primary index, and returns the live rows
        whose key the index lists under `value`, in no particular order. The
        value itself is not re-checked. */
    method GetRowsByIndex(table: string, field: string, value: Value) returns (r: Result<seq<Record>, DbError>)
      requires Valid()
      modifies this
      ensures Valid()
      ensures store == old(store) && schemas == old(schemas)
      ensures r.Success? <==>
        ((table in old(secondary) && field in old(secondary)[table]) || PrimaryKeyOf(SchemaOf(table)).Some?) &&
        BuildRowIndex(SchemaOf(table), Load(store, table)).Some?
      ensures r.Success? ==> (
        && table in secondary && field in secondary[table] && table in indexes
        && LiveRows(r.value, Members(secondary[table][field], value), indexes[table])
        && BuildRowIndex(SchemaOf(table), Load(store, table)) == Some(indexes[table])
        && indexes == old(indexes)[table := indexes[table]])
      ensures r.Success? && table in old(secondary) && field in old(secondary)[table] ==>
        secondary == old(secondary) && indexedFields == old(indexedFields)
      ensures r.Success? && !(table in old(secondary) && field in old(secondary)[table]) ==>
        && secondary == old(secondary)[table := IndexesOf(old(secondary), table)[field := secondary[table][field]]]
        && ExactIndex(secondary[table][field], indexes[table], field)
      ensures r.Failure? ==>
        indexes == old(indexes) && secondary == old(secondary) && indexedFields == old(indexedFields)
      ensures PrimaryKeyOf(SchemaOf(table)).None? && !(table in old(secondary) && field in old(secondary)[table]) ==>
        r == Failure(IndexNeedsPrimaryKey)
    {
      if table !in secondary || field !in secondary[table] {
        var created := CreateIndex(table, field);
        if created.Fail? {
          return Failure(created.error);
        }
      }
      var keys := Members(secondary[table][field], value);
      var ok := Reindex(table);
      if !ok {
        return Failure(KeyMissing(if PrimaryKeyOf(SchemaOf(table)).Some? then PrimaryKeyOf(SchemaOf(table)).value else ""));
      }
      var rows := CollectLiveRows(keys, indexes[table]);
      return Success(rows);
    }

    /** `transaction(func)`: snapshots every existing document, runs the body,
        and on an exception writes every snapshot document back and re-raises.
        Documents created by the body survive a rollback, and in-memory indexes
        are not restored. */
    method Transaction(body: Store -> BodyResult) returns (raised: Option<string>)
      modifies this`store
      ensures raised == body(old(store)).raised
      ensures raised.None? ==> store == body(old(store)).after
      ensures raised.Some? ==> store == Rollback(body(old(store)).after, old(store))
    {
      var snapshot := store;
      var result := body(store);
      raised := result.raised;
      if raised.Some? {
        store := RestoreSnapshot(result.after, snapshot);
      } else {
        store := result.after;
      }
    }
  }
}
