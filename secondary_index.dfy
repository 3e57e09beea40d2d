/**
 * Secondary indexes of the table engine (pysimdb/database.py): a field value
 * maps to the set of primary keys holding it; writes patch the sets in place.
 */
module SecondaryIndex {
  import opened Values
  import opened Tables

  /** One secondary index: field value to the set of primary keys holding it. */
  type ValueIndex = map<Value, set<Value>>

  /** A table's secondary indexes, by field. */
  type FieldIndexes = map<string, ValueIndex>

  // ---------------------------------------------------------------------------
  // Secondary index patches
  // ---------------------------------------------------------------------------

  /** `idx.get(v, set())`. */
  function Members(idx: ValueIndex, v: Value): set<Value>
  {
    if v in idx then idx[v] else {}
  }

  /** No value maps to an empty set of keys. */
  predicate NoEmptySets(idx: ValueIndex)
  {
    forall v :: v in idx ==> idx[v] != {}
  }

  /** `idx.setdefault(v, set()).add(pk)`. */
  function AddKey(idx: ValueIndex, v: Value, pk: Value): (r: ValueIndex)
    ensures r.Keys == idx.Keys + {v}
    ensures Members(r, v) == Members(idx, v) + {pk}
    ensures forall w :: w != v ==> Members(r, w) == Members(idx, w)
    ensures NoEmptySets(idx) ==> NoEmptySets(r)
  {
    idx[v := Members(idx, v) + {pk}]
  }

  /** `if old in idx and pk in idx[old]: idx[old].discard(pk); if not idx[old]: idx.pop(old)`. */
  function DiscardKey(idx: ValueIndex, v: Value, pk: Value): (r: ValueIndex)
    ensures Members(r, v) == Members(idx, v) - {pk}
    ensures forall w :: w != v ==> (w in r <==> w in idx)
    ensures forall w :: w != v && w in r ==> r[w] == idx[w]
    ensures NoEmptySets(idx) ==> NoEmptySets(r)
  {
    if v in idx && pk in idx[v] then
      if idx[v] - {pk} == {} then idx - {v} else idx[v := idx[v] - {pk}]
    else idx
  }

  /** The update patch for one index: the key leaves the old value's set (which
      is dropped once empty) and joins the new value's set unless the new
      value is None. Nothing happens when the value did not change. */
  function MoveKey(idx: ValueIndex, before: Value, after: Value, pk: Value): (r: ValueIndex)
    ensures before != after ==> pk !in Members(r, before)
    ensures before != after && after != Null ==> pk in Members(r, after)
    ensures before != after ==> Members(r, after) - {pk} == Members(idx, after) - {pk}
    ensures forall w :: w != before && w != after ==> Members(r, w) == Members(idx, w)
    ensures forall w :: w != before && w != after ==> (w in r <==> w in idx)
    ensures NoEmptySets(idx) ==> NoEmptySets(r)
  {
    if before == after then idx
    else
      var d := DiscardKey(idx, before, pk);
      if after != Null then AddKey(d, after, pk) else d
  }

  /** The inner loops of `delete` for one key: the key is discarded from every
      set holding it, and a set it empties is popped. */
  function DropKey(idx: ValueIndex, pk: Value): (r: ValueIndex)
    ensures forall v :: v in r ==> pk !in r[v]
    ensures forall v :: v in idx && pk !in idx[v] ==> v in r && r[v] == idx[v]
    ensures forall v :: v in r ==> v in idx && r[v] == idx[v] - {pk}
    ensures NoEmptySets(idx) ==> NoEmptySets(r)
  {
    map v | v in idx && idx[v] != {pk} :: idx[v] - {pk}
  }

  function KeySet(pks: seq<Value>): set<Value>
  {
    set k | k in pks
  }

  /** `delete`'s patch for all removed keys: every removed key leaves every
      set; a value survives unless its (non-empty) set held only removed keys. */
  function DropKeys(idx: ValueIndex, pks: seq<Value>): (r: ValueIndex)
    ensures forall v :: v in r <==> v in idx && !(idx[v] != {} && idx[v] <= KeySet(pks))
    ensures forall v :: v in r ==> r[v] == idx[v] - KeySet(pks)
  {
    if pks == [] then idx
    else
      var d := DropKey(idx, pks[0]);
      var r := DropKeys(d, pks[1..]);
      assert KeySet(pks) == {pks[0]} + KeySet(pks[1..]) by {
        assert forall k :: k in pks <==> k == pks[0] || k in pks[1..];
      }
      r
  }

  /** A set emptied by a delete is dropped: no empty set appears. */
  lemma DropKeysNoEmptySets(idx: ValueIndex, pks: seq<Value>)
    requires NoEmptySets(idx)
    ensures NoEmptySets(DropKeys(idx, pks))
    ensures forall v, k :: v in DropKeys(idx, pks) && k in pks ==> k !in DropKeys(idx, pks)[v]
  {
  }

  /** The three ways a write patches a table's secondary indexes. */
  datatype IndexPatch =
    | AddRow(row: Record, pk: Value)                       // insert (append)
    | ChangeRow(before: Record, after: Record, pk: Value)  // update, one row
    | RemoveKeys(pks: seq<Value>)                          // delete

  function PatchIndex(idx: ValueIndex, field: string, p: IndexPatch): (r: ValueIndex)
    ensures NoEmptySets(idx) ==> NoEmptySets(r)
    ensures p.AddRow? && field in p.row ==> Members(r, p.row[field]) == Members(idx, p.row[field]) + {p.pk}
    ensures p.AddRow? ==> forall w :: !(field in p.row && w == p.row[field]) ==> Members(r, w) == Members(idx, w)
    ensures p.RemoveKeys? ==> forall v, k :: v in r && k in p.pks ==> k !in r[v]
  {
    match p
    case AddRow(row, pk) => if field in row then AddKey(idx, row[field], pk) else idx
    case ChangeRow(before, after, pk) => MoveKey(idx, Get(before, field), Get(after, field), pk)
    case RemoveKeys(pks) => DropKeys(idx, pks)
  }

  function PatchAll(indexes: FieldIndexes, p: IndexPatch): (r: FieldIndexes)
    ensures r.Keys == indexes.Keys
  {
    map f | f in indexes :: PatchIndex(indexes[f], f, p)
  }

  /** The indexes part-way through the loop: those not in `todo` are patched. */
  ghost predicate PatchedExcept(indexes: FieldIndexes, p: IndexPatch, todo: set<string>, out: FieldIndexes)
  {
    && todo <= indexes.Keys && out.Keys == indexes.Keys
    && (forall f :: f in out ==> out[f] == if f in todo then indexes[f] else PatchIndex(indexes[f], f, p))
  }

  lemma PatchStep(indexes: FieldIndexes, p: IndexPatch, todo: set<string>, out: FieldIndexes, f: string)
    requires PatchedExcept(indexes, p, todo, out) && f in todo
    ensures PatchedExcept(indexes, p, todo - {f}, out[f := PatchIndex(out[f], f, p)])
  {
  }

  lemma PatchDone(indexes: FieldIndexes, p: IndexPatch, out: FieldIndexes)
    requires PatchedExcept(indexes, p, {}, out)
    ensures out == PatchAll(indexes, p)
  {
    assert forall f :: f in out ==> out[f] == PatchAll(indexes, p)[f];
  }

  /** The `for field, idx in self.secondary_indexes[table].items()` loops:
      every index of the table receives the patch in place. */
  method PatchIndexes(indexes: FieldIndexes, p: IndexPatch) returns (out: FieldIndexes)
    ensures out == PatchAll(indexes, p)
  {
    out := indexes;
    var todo := indexes.Keys;
    while todo != {}
      invariant PatchedExcept(indexes, p, todo, out)
      decreases |todo|
    {
      var f :| f in todo;
      PatchStep(indexes, p, todo, out, f);
      out := out[f := PatchIndex(out[f], f, p)];
      todo := todo - {f};
    }
    PatchDone(indexes, p, out);
  }

  /** The secondary indexes after `update`'s loop has patched them row by row. */
  function UpdatedIndexes(indexes: FieldIndexes, data: seq<Record>, where: map<string, Value>,
                          patch: Record, pk: string): (r: FieldIndexes)
    ensures r.Keys == indexes.Keys
  {
    if data == [] then indexes
    else
      var prev := UpdatedIndexes(indexes, data[..|data| - 1], where, patch, pk);
      var row := data[|data| - 1];
      if Matches(row, where) then PatchAll(prev, ChangeRow(row, row + patch, Get(row + patch, pk)))
      else prev
  }

  /** Each matching row of `update` moves its (updated) key, in every indexed
      field whose value it changes, from the old value's set to the new
      value's (unless None); every other value's set is left alone. */
  lemma UpdateRowMovesKey(indexes: FieldIndexes, data: seq<Record>, row: Record, where: map<string, Value>,
                          patch: Record, pk: string, f: string)
    requires Matches(row, where) && f in indexes
    ensures var prev := UpdatedIndexes(indexes, data, where, patch, pk)[f];
      var r := UpdatedIndexes(indexes, data + [row], where, patch, pk)[f];
      var before, after, k := Get(row, f), Get(row + patch, f), Get(row + patch, pk);
      && (before != after ==> k !in Members(r, before))
      && (before != after && after != Null ==> k in Members(r, after))
      && (forall w :: w != before && w != after ==> Members(r, w) == Members(prev, w))
  {
    assert (data + [row])[..|data|] == data;
    var prev := UpdatedIndexes(indexes, data, where, patch, pk);
    var k := Get(row + patch, pk);
    assert UpdatedIndexes(indexes, data + [row], where, patch, pk)[f] ==
           MoveKey(prev[f], Get(row, f), Get(row + patch, f), k);
  }

  /** The secondary index `create_index` builds from the primary index: it
      holds exactly the (value, key) pairs of the live rows, None values left
      out. */
  predicate ExactIndex(idx: ValueIndex, rows: RowIndex, field: string)
  {
    && (forall k :: k in rows && Get(rows[k], field) != Null ==> k in Members(idx, Get(rows[k], field)))
    && (forall v :: v in idx ==>
          v != Null && idx[v] != {} && forall k :: k in idx[v] ==> k in rows && Get(rows[k], field) == v)
  }

  /** The loop of `create_index` over the primary index. */
  method BuildValueIndex(rows: RowIndex, field: string) returns (idx: ValueIndex)
    ensures ExactIndex(idx, rows, field)
  {
    idx := map[];
    var todo := rows.Keys;
    while todo != {}
      invariant todo <= rows.Keys
      invariant forall k :: k in rows && k !in todo && Get(rows[k], field) != Null ==>
        k in Members(idx, Get(rows[k], field))
      invariant forall v :: v in idx ==>
        v != Null && idx[v] != {} && forall k :: k in idx[v] ==> k in rows && k !in todo && Get(rows[k], field) == v
      decreases |todo|
    {
      var k :| k in todo;
      var v := Get(rows[k], field);
      if v != Null {
        idx := AddKey(idx, v, k);
      }
      todo := todo - {k};
    }
  }

  // ---------------------------------------------------------------------------
  // Lookups through a secondary index
  // ---------------------------------------------------------------------------

  /** No element of `s` occurs twice. */
  predicate Distinct<T(==)>(s: seq<T>)
  {
    forall i, j :: 0 <= i < j < |s| ==> s[i] != s[j]
  }

  /** A sequence without repeats has as many elements as its set. */
  lemma {:induction false} DistinctCount<T>(s: seq<T>)
    requires Distinct(s)
    ensures |set x | x in s| == |s|
  {
    if s != [] {
      var tail := s[1..];
      assert Distinct(tail) by {
        forall i, j | 0 <= i < j < |tail| ensures tail[i] != tail[j] {
          assert tail[i] == s[i + 1] && tail[j] == s[j + 1];
        }
      }
      DistinctCount(tail);
      assert (set x | x in s) == {s[0]} + (set x | x in tail) by {
        forall x | x in s ensures x == s[0] || x in tail {
          var i :| 0 <= i < |s| && s[i] == x;
          if i > 0 { assert tail[i - 1] == x; }
        }
      }
      assert s[0] !in tail by {
        forall i | 0 <= i < |tail| ensures tail[i] != s[0] {
          assert tail[i] == s[i + 1];
        }
      }
    }
  }

  /** A sequence without repeats holds each of its elements once. */
  lemma {:induction false} DistinctMultiset<T>(s: seq<T>)
    requires Distinct(s)
    ensures multiset(s) == multiset(set x | x in s)
  {
    if s != [] {
      var tail := s[1..];
      assert s == [s[0]] + tail;
      assert Distinct(tail) by {
        forall i, j | 0 <= i < j < |tail| ensures tail[i] != tail[j] {
          assert tail[i] == s[i + 1] && tail[j] == s[j + 1];
        }
      }
      DistinctMultiset(tail);
      assert s[0] !in tail by {
        forall i | 0 <= i < |tail| ensures tail[i] != s[0] {
          assert tail[i] == s[i + 1];
        }
      }
      var rest := set x | x in tail;
      assert (set x | x in s) == {s[0]} + rest;
      assert multiset({s[0]} + rest) == multiset{s[0]} + multiset(rest) by {
        forall x ensures multiset({s[0]} + rest)[x] == (multiset{s[0]} + multiset(rest))[x] {
          if x == s[0] { assert x !in rest; }
        }
      }
    }
  }

  /** `rows` holds the row of every key of `keys` live in `rowIndex`, once
      each: `ks` lists those keys without repeats, and `rows[i]` is the row of
      `ks[i]`. */
  ghost predicate ListsLiveKeys(rows: seq<Record>, ks: seq<Value>, keys: set<Value>, rowIndex: RowIndex)
  {
    && |ks| == |rows|
    && Distinct(ks)
    && (forall i :: 0 <= i < |ks| ==> ks[i] in keys && ks[i] in rowIndex && rows[i] == rowIndex[ks[i]])
    && (forall k :: k in keys && k in rowIndex ==> k in ks)
  }

  /** `[pk_index[pk] for pk in pk_set if pk in pk_index]`: the rows of the
      live keys of the set, one per key, in the set's (unspecified) order. */
  ghost predicate LiveRows(rows: seq<Record>, keys: set<Value>, rowIndex: RowIndex)
  {
    exists ks :: ListsLiveKeys(rows, ks, keys, rowIndex)
  }

  /** The comprehension returns a row exactly when some live key of the set
      maps to it, and as many rows as the set has live keys. */
  lemma LiveRowsCount(rows: seq<Record>, keys: set<Value>, rowIndex: RowIndex)
    requires LiveRows(rows, keys, rowIndex)
    ensures forall row :: row in rows <==> exists k :: k in keys && k in rowIndex && rowIndex[k] == row
    ensures |rows| == |keys * rowIndex.Keys|
  {
    var ks :| ListsLiveKeys(rows, ks, keys, rowIndex);
    forall row | row in rows ensures exists k :: k in keys && k in rowIndex && rowIndex[k] == row {
      var i :| 0 <= i < |rows| && rows[i] == row;
      assert rows[i] == rowIndex[ks[i]];
    }
    forall k | k in keys && k in rowIndex ensures rowIndex[k] in rows {
      var i :| 0 <= i < |ks| && ks[i] == k;
      assert rows[i] == rowIndex[k];
    }
    ListedKeys(rows, ks, keys, rowIndex);
    DistinctCount(ks);
  }

  /** The key list holds exactly the live keys of the set. */
  lemma ListedKeys(rows: seq<Record>, ks: seq<Value>, keys: set<Value>, rowIndex: RowIndex)
    requires ListsLiveKeys(rows, ks, keys, rowIndex)
    ensures (set x | x in ks) == keys * rowIndex.Keys
  {
    forall x | x in ks ensures x in keys && x in rowIndex {
      var i :| 0 <= i < |ks| && ks[i] == x;
    }
  }

  /** The list comprehension of `get_rows_by_index` over the key set. */
  method CollectLiveRows(keys: set<Value>, rowIndex: RowIndex) returns (rows: seq<Record>)
    ensures LiveRows(rows, keys, rowIndex)
  {
    rows := [];
    ghost var ks: seq<Value> := [];
    var todo := keys;
    while todo != {}
      invariant todo <= keys
      invariant ListsLiveKeys(rows, ks, keys - todo, rowIndex)
      decreases |todo|
    {
      var k :| k in todo;
      if k in rowIndex {
        assert k !in ks;
        rows := rows + [rowIndex[k]];
        ks := ks + [k];
      }
      todo := todo - {k};
    }
    assert keys - todo == keys;
  }

  /** The keys whose row holds `value` in `field`. */
  function KeysHolding(rowIndex: RowIndex, field: string, value: Value): set<Value>
  {
    set k | k in rowIndex && Get(rowIndex[k], field) == value
  }

  /** Only the live keys of the set matter to the comprehension. */
  lemma LiveRowsSameLiveKeys(rows: seq<Record>, keys: set<Value>, keys': set<Value>, rowIndex: RowIndex)
    requires LiveRows(rows, keys, rowIndex)
    requires keys * rowIndex.Keys == keys' * rowIndex.Keys
    ensures LiveRows(rows, keys', rowIndex)
  {
    var ks :| ListsLiveKeys(rows, ks, keys, rowIndex);
    forall i | 0 <= i < |ks| ensures ks[i] in keys' {
      assert ks[i] in keys * rowIndex.Keys;
    }
    forall k | k in keys' && k in rowIndex ensures k in ks {
      assert k in keys * rowIndex.Keys;
    }
    assert ListsLiveKeys(rows, ks, keys', rowIndex);
  }

  /** Through an exact index (as `create_index` builds it), the lookup returns
      the row of every key whose row holds the value, once each, and nothing
      else. */
  lemma ExactLookupFindsValue(idx: ValueIndex, rowIndex: RowIndex, field: string, value: Value,
                              rows: seq<Record>)
    requires ExactIndex(idx, rowIndex, field) && value != Null
    requires LiveRows(rows, Members(idx, value), rowIndex)
    ensures LiveRows(rows, KeysHolding(rowIndex, field, value), rowIndex)
    ensures |rows| == |KeysHolding(rowIndex, field, value)|
    ensures forall row :: row in rows <==> exists k :: k in rowIndex && rowIndex[k] == row && Get(row, field) == value
  {
    var holding := KeysHolding(rowIndex, field, value);
    assert Members(idx, value) * rowIndex.Keys == holding by {
      forall k | k in holding ensures k in Members(idx, value) {
        assert k in Members(idx, Get(rowIndex[k], field));
      }
    }
    LiveRowsSameLiveKeys(rows, Members(idx, value), holding, rowIndex);
    LiveRowsCount(rows, holding, rowIndex);
    assert holding * rowIndex.Keys == holding;
  }

  /** The lookup does not re-check the value: through a stale index it returns
      a live row whose field no longer holds the value. */
  lemma StaleLookupReturnsOtherValue()
    ensures var row := map["id" := Int(1), "age" := Int(31)];
      var rowIndex := map[Int(1) := row];
      var idx := map[Int(30) := {Int(1)}];
      LiveRows([row], Members(idx, Int(30)), rowIndex) && Get(row, "age") != Int(30)
  {
    var row := map["id" := Int(1), "age" := Int(31)];
    var rowIndex := map[Int(1) := row];
    var idx := map[Int(30) := {Int(1)}];
    assert ListsLiveKeys([row], [Int(1)], Members(idx, Int(30)), rowIndex);
  }

}
