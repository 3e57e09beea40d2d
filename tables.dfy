/**
 * Stored rows and the primary index of the table engine
 * (pysimdb/database.py): loading, `_rebuild_index`, and the row
 * transformations of insert, update and delete.
 */
module Tables {
  import opened Wrappers
  import opened Values
  import opened Schema

  type Store = map<string, seq<Record>>

  /** Primary index: key value (or position, without a key) to row. */
  type RowIndex = map<Value, Record>

  /** The exceptions the engine raises. */
  datatype DbError =
    | Invalid(cause: SchemaError)          // SchemaError from validate
    | PrimaryKeyRequired(key: string)      // ValueError: record lacks the key
    | DuplicateKey(key: string, value: Value) // ValueError under "error"
    | IndexNeedsPrimaryKey                 // ValueError from create_index
    | KeyMissing(key: string)              // KeyError while rebuilding the index

  /** `storage.load`: a table without a document is empty. */
  function Load(store: Store, table: string): seq<Record>
  {
    if table in store then store[table] else []
  }

  /** The schema's primary key, when it has a (non-empty) one. */
  function PrimaryKeyOf(schema: Option<TableSchema>): (r: Option<string>)
    ensures r.Some? <==> schema.Some? && schema.value.HasPrimaryKey()
    ensures r.Some? ==> r.value != "" && schema.value.primaryKey == r
  {
    if schema.Some? && schema.value.HasPrimaryKey() then schema.value.primaryKey else None
  }

  // ---------------------------------------------------------------------------
  // The primary index (_rebuild_index)
  // ---------------------------------------------------------------------------

  predicate AllHaveKey(data: seq<Record>, pk: string)
  {
    forall i :: 0 <= i < |data| ==> pk in data[i]
  }

  /** `row` is the last stored row whose key value is `k`. */
  predicate IsLastWithKey(data: seq<Record>, pk: string, k: Value, row: Record)
  {
    exists i :: 0 <= i < |data| && data[i] == row && Get(row, pk) == k &&
      forall j :: i < j < |data| ==> Get(data[j], pk) != k
  }

  /** `{row[pk]: row for row in data}`, or None where it raises KeyError
      because a row lacks the key. Later rows overwrite earlier ones. */
  function PrimaryIndex(data: seq<Record>, pk: string): (r: Option<RowIndex>)
    ensures r.Some? <==> AllHaveKey(data, pk)
  {
    if data == [] then Some(map[])
    else
      var init, last := data[..|data| - 1], data[|data| - 1];
      assert AllHaveKey(data, pk) <==> AllHaveKey(init, pk) && pk in last by {
        if AllHaveKey(init, pk) && pk in last {
          forall i | 0 <= i < |data| ensures pk in data[i] {
            if i < |init| { assert data[i] == init[i]; }
          }
        }
        if AllHaveKey(data, pk) {
          forall i | 0 <= i < |init| ensures pk in init[i] {
            assert data[i] == init[i];
          }
        }
      }
      match PrimaryIndex(init, pk)
      case None => None
      case Some(m) => if pk !in last then None else Some(m[last[pk] := last])
  }

  /** The rebuilt primary index holds every stored key value, each mapped to
      the last stored row holding it. */
  lemma {:induction false} PrimaryIndexCorrect(data: seq<Record>, pk: string)
    requires AllHaveKey(data, pk)
    ensures forall i :: 0 <= i < |data| ==> Get(data[i], pk) in PrimaryIndex(data, pk).value
    ensures forall k :: k in PrimaryIndex(data, pk).value ==>
      IsLastWithKey(data, pk, k, PrimaryIndex(data, pk).value[k])
  {
    if data != [] {
      var init, last := data[..|data| - 1], data[|data| - 1];
      assert AllHaveKey(init, pk) by {
        forall i | 0 <= i < |init| ensures pk in init[i] {
          assert data[i] == init[i];
        }
      }
      PrimaryIndexCorrect(init, pk);
      var m := PrimaryIndex(init, pk).value;
      var r := PrimaryIndex(data, pk).value;
      assert r == m[last[pk] := last];
      forall i | 0 <= i < |data| ensures Get(data[i], pk) in r {
        if i < |init| {
          assert data[i] == init[i];
        }
      }
      forall k | k in r ensures IsLastWithKey(data, pk, k, r[k]) {
        if k == last[pk] {
          assert data[|data| - 1] == r[k];
        } else {
          var i :| 0 <= i < |init| && init[i] == m[k] && Get(m[k], pk) == k &&
            forall j :: i < j < |init| ==> Get(init[j], pk) != k;
          assert data[i] == r[k];
          assert forall j :: i < j < |data| ==> Get(data[j], pk) != k by {
            forall j | i < j < |data| ensures Get(data[j], pk) != k {
              if j < |init| {
                assert data[j] == init[j];
              }
            }
          }
        }
      }
    }
  }

  /** `{i: row for i, row in enumerate(data)}`, for tables without a key. */
  function PositionIndex(data: seq<Record>): (r: RowIndex)
    ensures forall i :: 0 <= i < |data| ==> Int(i) in r && r[Int(i)] == data[i]
    ensures forall k :: k in r ==> k.Int? && 0 <= k.i < |data|
  {
    map i | 0 <= i < |data| :: Int(i) := data[i]
  }

  /** What `_rebuild_index` stores for a table, or None when it raises. */
  function BuildRowIndex(schema: Option<TableSchema>, data: seq<Record>): (r: Option<RowIndex>)
    ensures r.None? <==> PrimaryKeyOf(schema).Some? && !AllHaveKey(data, PrimaryKeyOf(schema).value)
  {
    match PrimaryKeyOf(schema)
    case Some(pk) => PrimaryIndex(data, pk)
    case None => Some(PositionIndex(data))
  }

  /** A key value is in the rebuilt index exactly when some row holds it. */
  lemma PrimaryIndexHasKey(data: seq<Record>, pk: string, k: Value)
    requires AllHaveKey(data, pk)
    ensures k in PrimaryIndex(data, pk).value <==> exists i :: 0 <= i < |data| && Get(data[i], pk) == k
  {
    PrimaryIndexCorrect(data, pk);
  }

  /** Every row of the rebuilt index is a stored row. */
  lemma RowIndexRowsAreStored(schema: Option<TableSchema>, data: seq<Record>, k: Value)
    requires BuildRowIndex(schema, data).Some? && k in BuildRowIndex(schema, data).value
    ensures BuildRowIndex(schema, data).value[k] in data
  {
    if PrimaryKeyOf(schema).Some? {
      PrimaryIndexCorrect(data, PrimaryKeyOf(schema).value);
    }
  }

  // ---------------------------------------------------------------------------
  // Row transformations of insert, update and delete
  // ---------------------------------------------------------------------------

  /** Index of the first row whose key equals `v`, or |data| if none. */
  function FirstWithKey(data: seq<Record>, pk: string, v: Value): (i: nat)
    ensures i <= |data|
    ensures i < |data| ==> Get(data[i], pk) == v
    ensures forall j :: 0 <= j < i ==> Get(data[j], pk) != v
  {
    if data == [] then 0
    else if Get(data[0], pk) == v then 0
    else 1 + FirstWithKey(data[1..], pk, v)
  }

  /** The `replace` loop: the first row with the record's key is overwritten at
      its position and the loop stops; table length and every other row are
      unchanged. */
  method ReplaceFirstRow(data: seq<Record>, pk: string, record: Record) returns (out: seq<Record>)
    requires pk in record
    ensures |out| == |data|
    ensures var i := FirstWithKey(data, pk, record[pk]);
      && (i < |data| ==> out[i] == record)
      && forall j :: 0 <= j < |data| && j != i ==> out[j] == data[j]
  {
    out := data;
    var i := 0;
    while i < |out|
      invariant i <= |out| == |data|
      invariant forall j :: 0 <= j < i ==> Get(data[j], pk) != record[pk]
      invariant out == data
    {
      if Get(out[i], pk) == record[pk] {
        out := out[i := record];
        return;
      }
      i := i + 1;
    }
  }

  /** `row.update(updates)` applied to every row matching `where`. */
  function UpdatedRows(data: seq<Record>, where: map<string, Value>, patch: Record): (r: seq<Record>)
    ensures |r| == |data|
    ensures forall i :: 0 <= i < |data| && !Matches(data[i], where) ==> r[i] == data[i]
    ensures forall i :: 0 <= i < |data| && Matches(data[i], where) ==>
      r[i].Keys == data[i].Keys + patch.Keys &&
      (forall k :: k in patch ==> r[i][k] == patch[k]) &&
      (forall k :: k in data[i] && k !in patch ==> r[i][k] == data[i][k])
  {
    seq(|data|, i requires 0 <= i < |data| => if Matches(data[i], where) then data[i] + patch else data[i])
  }

  /** The rows `delete` keeps: the non-matching ones, in their order. */
  function Kept(data: seq<Record>, where: map<string, Value>): (r: seq<Record>)
    ensures |r| <= |data|
    ensures forall row :: row in r <==> row in data && !Matches(row, where)
  {
    if data == [] then []
    else
      var init, last := data[..|data| - 1], data[|data| - 1];
      assert data == init + [last];
      Kept(init, where) + (if Matches(last, where) then [] else [last])
  }

  /** How many rows match `where`. */
  function CountMatching(data: seq<Record>, where: map<string, Value>): nat
  {
    if data == [] then 0
    else CountMatching(data[..|data| - 1], where) + (if Matches(data[|data| - 1], where) then 1 else 0)
  }

  /** The length drops by exactly the number of matching rows. */
  lemma {:induction false} KeptLength(data: seq<Record>, where: map<string, Value>)
    ensures |Kept(data, where)| + CountMatching(data, where) == |data|
  {
    if data != [] {
      KeptLength(data[..|data| - 1], where);
    }
  }

  /** The keys `delete` collects from the matching rows, in order. */
  function RemovedKeys(data: seq<Record>, where: map<string, Value>, pk: string): (r: seq<Value>)
    ensures |r| == CountMatching(data, where)
    ensures forall row :: row in data && Matches(row, where) ==> Get(row, pk) in r
  {
    if data == [] then []
    else
      var init, last := data[..|data| - 1], data[|data| - 1];
      assert data == init + [last];
      RemovedKeys(init, where, pk) + (if Matches(last, where) then [Get(last, pk)] else [])
  }

  /** The loop of `delete`: keeps the non-matching rows and, when the table
      has a primary key, collects the keys of the matching ones. */
  method SplitRows(data: seq<Record>, where: map<string, Value>, pk: Option<string>)
    returns (kept: seq<Record>, removed: seq<Value>)
    ensures kept == Kept(data, where)
    ensures removed == if pk.Some? then RemovedKeys(data, where, pk.value) else []
  {
    kept, removed := [], [];
    var i := 0;
    while i < |data|
      invariant i <= |data|
      invariant kept == Kept(data[..i], where)
      invariant removed == if pk.Some? then RemovedKeys(data[..i], where, pk.value) else []
    {
      assert data[..i + 1][..i] == data[..i];
      if !Matches(data[i], where) {
        kept := kept + [data[i]];
      } else if pk.Some? {
        removed := removed + [Get(data[i], pk.value)];
      }
      i := i + 1;
    }
    assert data[..i] == data;
  }

}
