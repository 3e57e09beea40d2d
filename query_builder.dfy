/**
 * The query pipeline (pysimdb/query_builder.py): a builder whose setters
 * record the query, and the terminal `all()`, which fetches the base rows
 * (through a secondary index when an equality filter allows it, by a full
 * scan otherwise), filters, joins, sorts, paginates and projects them.
 *
 * Python raises TypeError where a comparison, a substring test or the sort
 * meets values it cannot order; here such a query ends in `Failure(TypeError)`.
 */
module Query {
  import opened Wrappers
  import opened Values
  import opened Tables
  import opened SecondaryIndex
  import opened Database
  import opened StableSort

  // ---------------------------------------------------------------------------
  // Conditions
  // ---------------------------------------------------------------------------

  /** The operators `where` knows; any other string makes a condition that
      rejects every row. */
  datatype Op = Eq | Ne | Lt | Gt | Le | Ge | In | Unknown(symbol: string)

  function ParseOp(op: string): Op
  {
    if op == "=" then Eq
    else if op == "!=" then Ne
    else if op == "<" then Lt
    else if op == ">" then Gt
    else if op == "<=" then Le
    else if op == ">=" then Ge
    else if op == "in" then In
    else Unknown(op)
  }

  /** The value passed to `where`: a single value, or a list of values. */
  datatype Operand = One(value: Value) | Many(values: seq<Value>)

  datatype Condition = Condition(field: string, op: Op, operand: Operand)

  datatype QueryError = TypeError

  /** Python's `a in b` on two strings. */
  predicate IsSubstring(a: string, b: string)
  {
    exists i, j :: 0 <= i <= j <= |b| && b[i..j] == a
  }

  /** The condition can be evaluated on the row without a TypeError. */
  predicate Evaluable(row: Record, c: Condition)
    ensures c.op.Eq? || c.op.Ne? || c.op.Unknown? ==> Evaluable(row, c)
    ensures Evaluable(row, c) && (c.op.Lt? || c.op.Gt? || c.op.Le? || c.op.Ge?) ==>
      c.operand.One? && Get(row, c.field) != Null && c.operand.value != Null
    ensures Evaluable(row, c) && c.op.In? && c.operand.One? ==> Get(row, c.field).Str?
  {
    var v := Get(row, c.field);
    if c.op.Lt? || c.op.Gt? || c.op.Le? || c.op.Ge? then
      c.operand.One? && Comparable(v, c.operand.value)
    else if c.op.In? then
      c.operand.Many? || (c.operand.value.Str? && v.Str?)
    else true
  }

  /** The closure `cond(row)` built by `where`. A list never equals a value. */
  predicate Holds(row: Record, c: Condition)
    requires Evaluable(row, c)
    ensures c.op.Unknown? ==> !Holds(row, c)
    ensures Holds(row, c) && c.op.Eq? ==> c.operand.One? && Get(row, c.field) == c.operand.value
    ensures Holds(row, c) && c.op.Eq? && c.operand.value != Null ==>
      c.field in row && row[c.field] == c.operand.value
    ensures Holds(row, c) && c.op.In? && c.operand.Many? ==> Get(row, c.field) in c.operand.values
  {
    var v := Get(row, c.field);
    match c.op
    case Eq => c.operand == One(v)
    case Ne => c.operand != One(v)
    case Lt => Less(v, c.operand.value)
    case Gt => Less(c.operand.value, v)
    case Le => !Less(c.operand.value, v)
    case Ge => !Less(v, c.operand.value)
    case In => if c.operand.Many? then v in c.operand.values else IsSubstring(v.s, c.operand.value.s)
    case Unknown(_) => false
  }

  /** On comparable values the four comparisons agree with each other: `<=` is
      `<` or equal, `>=` is `>` or equal, and exactly one of `<`, equal, `>`
      holds. */
  lemma ComparisonsConsistent(row: Record, field: string, x: Value)
    requires Comparable(Get(row, field), x)
    ensures var v := Get(row, field);
      && (Holds(row, Condition(field, Le, One(x))) <==> Holds(row, Condition(field, Lt, One(x))) || Equivalent(v, x))
      && (Holds(row, Condition(field, Ge, One(x))) <==> Holds(row, Condition(field, Gt, One(x))) || Equivalent(v, x))
      && (Holds(row, Condition(field, Lt, One(x))) ==> !Holds(row, Condition(field, Gt, One(x))) && !Equivalent(v, x))
  {
    var v := Get(row, field);
    LessStrictWeakOrder(v, x, v);
    LessStrictWeakOrder(x, v, x);
  }

  /** Whether the row passes the conditions, each evaluated only on the rows
      the previous ones kept; None when one of them raises on the row. */
  function Check(row: Record, conds: seq<Condition>): (r: Option<bool>)
    ensures r.None? ==> exists j :: 0 <= j < |conds| && !Evaluable(row, conds[j])
    ensures (forall j :: 0 <= j < |conds| ==> Evaluable(row, conds[j])) ==> r.Some?
    ensures r == Some(false) ==> exists j :: 0 <= j < |conds| && Evaluable(row, conds[j]) && !Holds(row, conds[j])
  {
    if conds == [] then Some(true)
    else if !Evaluable(row, conds[0]) then None
    else if !Holds(row, conds[0]) then Some(false)
    else Check(row, conds[1..])
  }

  /** A row passes exactly when every condition can be evaluated on it and
      holds: the conditions form a conjunction. */
  lemma {:induction false} PassesIsConjunction(row: Record, conds: seq<Condition>)
    ensures Check(row, conds) == Some(true) <==>
      forall j :: 0 <= j < |conds| ==> Evaluable(row, conds[j]) && Holds(row, conds[j])
  {
    if conds != [] {
      PassesIsConjunction(row, conds[1..]);
      assert forall j :: 1 <= j < |conds| ==> conds[j] == conds[1..][j - 1];
    }
  }

  /** The rows that pass, in their order. */
  function Survivors(rows: seq<Record>, conds: seq<Condition>): (r: seq<Record>)
    ensures |r| <= |rows|
    ensures forall row :: row in r <==> row in rows && Check(row, conds) == Some(true)
  {
    if rows == [] then []
    else (if Check(rows[0], conds) == Some(true) then [rows[0]] else []) + Survivors(rows[1..], conds)
  }

  /** Filtering by all conditions at once: None when a condition raises on
      some row it is evaluated on. */
  function KeepAll(rows: seq<Record>, conds: seq<Condition>): Option<seq<Record>>
  {
    if exists row :: row in rows && Check(row, conds).None? then None
    else Some(Survivors(rows, conds))
  }

  /** `rows = [r for r in rows if cond(r)]`, for one condition. */
  function FilterBy(rows: seq<Record>, c: Condition): Option<seq<Record>>
  {
    KeepAll(rows, [c])
  }

  /** `for cond in self.conditions: rows = [r for r in rows if cond(r)]`. */
  function ApplyConditions(rows: seq<Record>, conds: seq<Condition>): (r: Option<seq<Record>>)
    ensures r.Some? ==> |r.value| <= |rows| && forall row :: row in r.value ==> row in rows
    decreases |conds|
  {
    if conds == [] then Some(rows)
    else
      match FilterBy(rows, conds[0])
      case None => None
      case Some(next) => ApplyConditions(next, conds[1..])
  }

  /** Evaluating a first condition that can be evaluated. */
  lemma CheckFirst(row: Record, c: Condition, cs: seq<Condition>)
    requires Evaluable(row, c)
    ensures Check(row, [c]) == Some(Holds(row, c))
    ensures Check(row, [c] + cs) == if Holds(row, c) then Check(row, cs) else Some(false)
  {
    assert ([c] + cs)[1..] == cs;
  }

  lemma {:induction false} SurvivorsAfterFilter(rows: seq<Record>, c: Condition, cs: seq<Condition>)
    requires forall row :: row in rows ==> Evaluable(row, c)
    ensures Survivors(Survivors(rows, [c]), cs) == Survivors(rows, [c] + cs)
  {
    if rows != [] {
      var x, rest := rows[0], rows[1..];
      assert forall row :: row in rest ==> row in rows;
      SurvivorsAfterFilter(rest, c, cs);
      CheckFirst(x, c, cs);
      var s := Survivors(rows, [c]);
      if Holds(x, c) {
        assert s == [x] + Survivors(rest, [c]);
        assert s[0] == x && s[1..] == Survivors(rest, [c]);
        assert Survivors(s, cs) ==
          (if Check(x, cs) == Some(true) then [x] else []) + Survivors(Survivors(rest, [c]), cs);
      } else {
        assert s == Survivors(rest, [c]);
      }
    }
  }

  lemma {:induction false} SurvivorsOfNoConditions(rows: seq<Record>)
    ensures Survivors(rows, []) == rows
  {
    if rows != [] {
      SurvivorsOfNoConditions(rows[1..]);
      assert rows == [rows[0]] + rows[1..];
    }
  }

  /** Filtering condition by condition is filtering by their conjunction: the
      same rows in the same order, and a TypeError exactly when some row
      reaches a condition it cannot be evaluated on. */
  lemma {:induction false} SequentialFilterIsConjunction(rows: seq<Record>, conds: seq<Condition>)
    ensures ApplyConditions(rows, conds) == KeepAll(rows, conds)
    decreases |conds|
  {
    if conds == [] {
      SurvivorsOfNoConditions(rows);
    } else {
      var c, cs := conds[0], conds[1..];
      assert conds == [c] + cs;
      if exists row :: row in rows && !Evaluable(row, c) {
        var row :| row in rows && !Evaluable(row, c);
        assert Check(row, [c]).None? && Check(row, conds).None?;
        assert FilterBy(rows, c) == None;
        assert ApplyConditions(rows, conds) == None;
      } else {
        assert forall row :: row in rows ==> Check(row, [c]).Some? by {
          forall row | row in rows ensures Check(row, [c]).Some? {
            CheckFirst(row, c, cs);
          }
        }
        var next := Survivors(rows, [c]);
        assert FilterBy(rows, c) == Some(next);
        SequentialFilterIsConjunction(next, cs);
        SurvivorsAfterFilter(rows, c, cs);
        assert (exists row :: row in next && Check(row, cs).None?) <==>
               (exists row :: row in rows && Check(row, conds).None?) by {
          forall row | row in rows
            ensures (row in next && Check(row, cs).None?) <==> Check(row, conds).None?
          {
            CheckFirst(row, c, cs);
          }
        }
        assert ApplyConditions(rows, conds) == ApplyConditions(next, cs);
        assert KeepAll(next, cs) == KeepAll(rows, conds);
      }
    }
  }

  /** An unknown operator rejects every row. */
  lemma {:induction false} UnknownOpRejectsAll(rows: seq<Record>, field: string, symbol: string, operand: Operand)
    ensures FilterBy(rows, Condition(field, Unknown(symbol), operand)) == Some([])
  {
    var c := Condition(field, Unknown(symbol), operand);
    assert forall row :: Check(row, [c]) == Some(false);
    if rows != [] {
      UnknownOpRejectsAll(rows[1..], field, symbol, operand);
      assert Survivors(rows, [c]) == Survivors(rows[1..], [c]);
    }
  }

  // ---------------------------------------------------------------------------
  // Index path versus full scan
  // ---------------------------------------------------------------------------

  /** Fetching the base rows through an index changes nothing in the filtered
      result, as a set of rows, when the fetched rows are table rows and include
      every row that passes the conditions. */
  lemma IndexPathAgreesWithScan(base: seq<Record>, table: seq<Record>, conds: seq<Condition>)
    requires forall row :: row in base ==> row in table
    requires forall row :: row in table && Check(row, conds) == Some(true) ==> row in base
    requires KeepAll(table, conds).Some?
    ensures KeepAll(base, conds).Some?
    ensures forall row :: row in KeepAll(base, conds).value <==> row in KeepAll(table, conds).value
  {
  }

  /** No two stored rows share a key value. */
  predicate UniqueKeys(data: seq<Record>, pk: string)
  {
    forall i, j :: 0 <= i < j < |data| ==> Get(data[i], pk) != Get(data[j], pk)
  }

  /** When keys are unique, the index `create_index` builds is exact, the
      value is not None and the equality condition is among the conditions,
      the lookup returns table rows including every row that passes: the
      index path and the full scan agree. */
  lemma ExactLookupCoversMatches(table: seq<Record>, pk: string, idx: ValueIndex, field: string,
                                 v: Value, base: seq<Record>, conds: seq<Condition>)
    requires AllHaveKey(table, pk) && UniqueKeys(table, pk)
    requires ExactIndex(idx, PrimaryIndex(table, pk).value, field) && v != Null
    requires LiveRows(base, Members(idx, v), PrimaryIndex(table, pk).value)
    requires Condition(field, Eq, One(v)) in conds
    ensures forall row :: row in base ==> row in table
    ensures forall row :: row in table && Check(row, conds) == Some(true) ==> row in base
  {
    var rowIndex := PrimaryIndex(table, pk).value;
    PrimaryIndexCorrect(table, pk);
    ExactLookupFindsValue(idx, rowIndex, field, v, base);
    forall row | row in base ensures row in table {
      var k :| k in rowIndex && rowIndex[k] == row && Get(row, field) == v;
      var i :| 0 <= i < |table| && Get(table[i], pk) == k && table[i] == row;
    }
    forall row | row in table && Check(row, conds) == Some(true) ensures row in base {
      var i :| 0 <= i < |table| && table[i] == row;
      var k := Get(row, pk);
      var j :| 0 <= j < |table| && Get(table[j], pk) == k && table[j] == rowIndex[k] &&
               forall m :: j < m < |table| ==> Get(table[m], pk) != k;
      assert i == j;
      PassesIsConjunction(row, conds);
      var n :| 0 <= n < |conds| && conds[n] == Condition(field, Eq, One(v));
      assert Holds(row, conds[n]);
    }
  }

  /** Filtering keeps a sequence free of repeats. */
  lemma {:induction false} SurvivorsDistinct(rows: seq<Record>, conds: seq<Condition>)
    requires Distinct(rows)
    ensures Distinct(Survivors(rows, conds))
  {
    if rows != [] {
      var tail := rows[1..];
      assert Distinct(tail) by {
        forall i, j | 0 <= i < j < |tail| ensures tail[i] != tail[j] {
          assert tail[i] == rows[i + 1] && tail[j] == rows[j + 1];
        }
      }
      SurvivorsDistinct(tail, conds);
      var rest := Survivors(tail, conds);
      assert rows[0] !in rest by {
        forall i | 0 <= i < |tail| ensures tail[i] != rows[0] {
          assert tail[i] == rows[i + 1];
        }
      }
      var head := if Check(rows[0], conds) == Some(true) then [rows[0]] else [];
      assert Survivors(rows, conds) == head + rest;
      forall i, j | 0 <= i < j < |head + rest| ensures (head + rest)[i] != (head + rest)[j] {
        if i < |head| {
          assert (head + rest)[j] == rest[j - 1];
        }
      }
    }
  }

  /** With unique keys and an exact index, the index path returns the same
      rows as the full scan, each once, possibly in another order. */
  lemma IndexPathSameRows(table: seq<Record>, pk: string, idx: ValueIndex, field: string,
                          v: Value, base: seq<Record>, conds: seq<Condition>)
    requires AllHaveKey(table, pk) && UniqueKeys(table, pk)
    requires ExactIndex(idx, PrimaryIndex(table, pk).value, field) && v != Null
    requires LiveRows(base, Members(idx, v), PrimaryIndex(table, pk).value)
    requires Condition(field, Eq, One(v)) in conds
    requires KeepAll(table, conds).Some?
    ensures KeepAll(base, conds).Some?
    ensures multiset(KeepAll(base, conds).value) == multiset(KeepAll(table, conds).value)
  {
    ExactLookupCoversMatches(table, pk, idx, field, v, base, conds);
    IndexPathAgreesWithScan(base, table, conds);
    LookupDistinct(table, pk, Members(idx, v), base);
    assert Distinct(table) by {
      forall i, j | 0 <= i < j < |table| ensures table[i] != table[j] {
        assert Get(table[i], pk) != Get(table[j], pk);
      }
    }
    SurvivorsDistinct(base, conds);
    SurvivorsDistinct(table, conds);
    SameElementsSameMultiset(KeepAll(base, conds).value, KeepAll(table, conds).value);
  }

  /** Rows fetched through the primary index are distinct: each carries its
      own key. */
  lemma LookupDistinct(table: seq<Record>, pk: string, keys: set<Value>, base: seq<Record>)
    requires AllHaveKey(table, pk)
    requires LiveRows(base, keys, PrimaryIndex(table, pk).value)
    ensures Distinct(base)
  {
    var rowIndex := PrimaryIndex(table, pk).value;
    PrimaryIndexCorrect(table, pk);
    var ks :| ListsLiveKeys(base, ks, keys, rowIndex);
    forall i, j | 0 <= i < j < |base| ensures base[i] != base[j] {
      assert IsLastWithKey(table, pk, ks[i], rowIndex[ks[i]]);
      assert IsLastWithKey(table, pk, ks[j], rowIndex[ks[j]]);
    }
  }

  /** Two sequences without repeats and with the same elements hold each
      element equally often. */
  lemma SameElementsSameMultiset(a: seq<Record>, b: seq<Record>)
    requires Distinct(a) && Distinct(b)
    requires forall row :: row in a <==> row in b
    ensures multiset(a) == multiset(b)
  {
    assert (set x | x in a) == (set x | x in b);
    DistinctMultiset(a);
    DistinctMultiset(b);
  }

  /** `create_index` leaves None values out, so an equality filter on None
      fetched through the index yields no rows, while the full scan yields
      every row whose field is None or absent. */
  lemma NullEqualityMissesRows()
    ensures var row := map["id" := Int(1)];
      var rowIndex := PrimaryIndex([row], "id").value;
      var cond := Condition("email", Eq, One(Null));
      ExactIndex(map[], rowIndex, "email") && LiveRows([], Members(map[], Null), rowIndex)
    ensures KeepAll([], [Condition("email", Eq, One(Null))]) == Some([])
    ensures var row := map["id" := Int(1)];
      KeepAll([row], [Condition("email", Eq, One(Null))]) == Some([row])
  {
    var row := map["id" := Int(1)];
    var cond := Condition("email", Eq, One(Null));
    assert AllHaveKey([row], "id");
    PrimaryIndexCorrect([row], "id");
    var rowIndex := PrimaryIndex([row], "id").value;
    assert forall k :: k in rowIndex ==> rowIndex[k] == row;
    assert ListsLiveKeys([], [], Members(map[], Null), rowIndex);
    assert Check(row, [cond]) == Some(true);
    assert forall r :: r in [row] ==> r == row;
    assert !(exists r :: r in [row] && Check(r, [cond]).None?);
    assert Survivors([row], [cond]) == [row];
    assert KeepAll([row], [cond]) == Some([row]);
    assert Survivors([row], [cond]) == [row] + Survivors([], [cond]);
  }

  // ---------------------------------------------------------------------------
  // Join
  // ---------------------------------------------------------------------------

  /** `join(other_table, base_field, other_field)`. */
  datatype JoinSpec = JoinSpec(table: string, baseField: string, otherField: string)

  /** The merged rows for one base row: `{**r, **o}` for every other row `o`
      whose join field equals `r`'s, in the order of `others`. */
  function JoinOne(r: Record, others: seq<Record>, baseField: string, otherField: string): (out: seq<Record>)
    ensures forall m :: m in out <==>
      exists j :: 0 <= j < |others| && Get(r, baseField) == Get(others[j], otherField) && m == r + others[j]
  {
    if others == [] then []
    else
      var init, last := others[..|others| - 1], others[|others| - 1];
      assert forall j :: 0 <= j < |init| ==> init[j] == others[j];
      JoinOne(r, init, baseField, otherField) +
      (if Get(r, baseField) == Get(last, otherField) then [r + last] else [])
  }

  /** The nested-loop inner equi-join, base rows outermost. */
  function JoinRows(rows: seq<Record>, others: seq<Record>, baseField: string, otherField: string): (out: seq<Record>)
    ensures forall m :: m in out <==>
      exists i, j :: 0 <= i < |rows| && 0 <= j < |others| &&
        Get(rows[i], baseField) == Get(others[j], otherField) && m == rows[i] + others[j]
  {
    if rows == [] then []
    else
      var init, last := rows[..|rows| - 1], rows[|rows| - 1];
      assert forall i :: 0 <= i < |init| ==> init[i] == rows[i];
      JoinRows(init, others, baseField, otherField) + JoinOne(last, others, baseField, otherField)
  }

  /** Base-major order: the join of a concatenation is the concatenation of
      the joins. */
  lemma {:induction false} JoinRowsAppend(a: seq<Record>, b: seq<Record>, others: seq<Record>,
                                          baseField: string, otherField: string)
    ensures JoinRows(a + b, others, baseField, otherField) ==
            JoinRows(a, others, baseField, otherField) + JoinRows(b, others, baseField, otherField)
  {
    if b != [] {
      var ab := a + b;
      assert ab[..|ab| - 1] == a + b[..|b| - 1];
      assert ab[|ab| - 1] == b[|b| - 1];
      JoinRowsAppend(a, b[..|b| - 1], others, baseField, otherField);
    } else {
      assert a + b == a;
    }
  }

  /** A merged row holds every field of the other row, and the base row's
      fields the other row lacks. */
  lemma JoinedRowFields(r: Record, o: Record, k: string)
    ensures k in r + o <==> k in r || k in o
    ensures k in o ==> (r + o)[k] == o[k]
    ensures k in r && k !in o ==> (r + o)[k] == r[k]
  {
  }

  /** The join's nested loop, appending to `joined`. */
  method JoinLoop(rows: seq<Record>, others: seq<Record>, baseField: string, otherField: string)
    returns (joined: seq<Record>)
    ensures joined == JoinRows(rows, others, baseField, otherField)
  {
    joined := [];
    var i := 0;
    while i < |rows|
      invariant 0 <= i <= |rows|
      invariant joined == JoinRows(rows[..i], others, baseField, otherField)
    {
      ghost var before := joined;
      var j := 0;
      while j < |others|
        invariant 0 <= j <= |others|
        invariant joined == before + JoinOne(rows[i], others[..j], baseField, otherField)
      {
        assert others[..j + 1][..j] == others[..j];
        if Get(rows[i], baseField) == Get(others[j], otherField) {
          joined := joined + [rows[i] + others[j]];
        }
        j := j + 1;
      }
      assert others[..j] == others;
      assert rows[..i + 1][..i] == rows[..i];
      i := i + 1;
    }
    assert rows[..i] == rows;
  }

  // ---------------------------------------------------------------------------
  // Order, pagination, projection
  // ---------------------------------------------------------------------------

  /** `sorted(rows, key=lambda x: x.get(field, None), reverse=desc)`; None
      (a TypeError) when two keys cannot be compared. */
  function OrderRows(rows: seq<Record>, field: string, desc: bool): (r: Option<seq<Record>>)
    ensures r.Some? ==> multiset(r.value) == multiset(rows)
  {
    if UniformKeys(rows, field) then Some(Sort(rows, field, desc)) else None
  }

  /** The ordering step keeps the rows, sorts them by the field, and keeps the
      rows of each key in their prior order. */
  lemma OrderRowsSortsStably(rows: seq<Record>, field: string, desc: bool, k: Value)
    requires OrderRows(rows, field, desc).Some?
    ensures var r := OrderRows(rows, field, desc).value;
      && multiset(r) == multiset(rows)
      && SortedBy(r, field, desc)
      && WithKey(r, field, k) == WithKey(rows, field, k)
  {
    SortIsSorted(rows, field, desc);
    SortIsStable(rows, field, desc, k);
  }

  /** The position Python's slicing uses for bound `i` of a sequence of length `n`. */
  function PyBound(n: nat, i: int): (b: nat)
    ensures b <= n
  {
    if i < 0 then (if n + i < 0 then 0 else n + i) else if i > n then n else i
  }

  /** `rows[offset:]` when the offset is truthy, then `rows[:limit]` when a
      limit is set. */
  function Paginate(rows: seq<Record>, offset: int, limit: Option<int>): (r: seq<Record>)
    ensures var start := if offset != 0 then PyBound(|rows|, offset) else 0;
      start + |r| <= |rows| && r == rows[start..start + |r|]
    ensures limit.None? ==> |r| == |rows| - (if offset != 0 then PyBound(|rows|, offset) else 0)
  {
    var skipped := if offset != 0 then rows[PyBound(|rows|, offset)..] else rows;
    if limit.Some? then skipped[..PyBound(|skipped|, limit.value)] else skipped
  }

  /** With non-negative arguments the page has `min(limit, max(0, n - offset))`
      rows, the i-th being row `offset + i`. */
  lemma PaginateWindow(rows: seq<Record>, offset: nat, limit: nat)
    ensures var r := Paginate(rows, offset, Some(limit));
      var rest := if |rows| > offset then |rows| - offset else 0;
      && |r| == (if limit < rest then limit else rest)
      && forall i :: 0 <= i < |r| ==> r[i] == rows[offset + i]
  {
  }

  /** A negative offset keeps the last `-offset` rows (all of them when there
      are fewer); a negative limit drops the last `-limit`. */
  lemma PaginateNegative(rows: seq<Record>, offset: int, limit: int)
    requires offset < 0 && limit < 0
    ensures var skipped := if |rows| + offset < 0 then rows else rows[|rows| + offset..];
      Paginate(rows, offset, Some(limit)) ==
        (if |skipped| + limit < 0 then [] else skipped[..|skipped| + limit])
  {
  }

  /** `{k: row[k] for k in self.select_columns if k in row}` for every row,
      when columns were selected. */
  function Project(rows: seq<Record>, columns: seq<string>): (r: seq<Record>)
    ensures |r| == |rows|
    ensures columns != [] ==> forall i :: 0 <= i < |r| ==>
      r[i].Keys == rows[i].Keys * (set c | c in columns) &&
      forall k :: k in r[i] ==> r[i][k] == rows[i][k]
    ensures columns == [] ==> r == rows
  {
    if columns == [] then rows
    else seq(|rows|, i requires 0 <= i < |rows| => map k | k in rows[i] && k in columns :: rows[i][k])
  }

  // ---------------------------------------------------------------------------
  // The pipeline of `all()`
  // ---------------------------------------------------------------------------

  /** The builder's configuration as `all()` reads it. */
  datatype Plan = Plan(conditions: seq<Condition>, join: Option<JoinSpec>,
                       orderBy: Option<string>, orderDesc: bool,
                       limit: Option<int>, offset: int, columns: seq<string>)

  /** `if self.join_table:`. */
  predicate JoinActive(join: Option<JoinSpec>)
  {
    join.Some? && join.value.table != ""
  }

  /** `if self._order_by:`. */
  predicate Ordering(orderBy: Option<string>)
  {
    orderBy.Some? && orderBy.value != ""
  }

  /** The rows after filtering and joining. */
  function Joined(plan: Plan, filtered: seq<Record>, others: seq<Record>): seq<Record>
  {
    if JoinActive(plan.join)
    then JoinRows(filtered, others, plan.join.value.baseField, plan.join.value.otherField)
    else filtered
  }

  /** Steps 2 to 6 of `all()` on the base rows; `others` are the join table's rows. */
  function Execute(plan: Plan, base: seq<Record>, others: seq<Record>): (r: Result<seq<Record>, QueryError>)
    ensures ApplyConditions(base, plan.conditions).None? ==> r == Failure(TypeError)
  {
    match ApplyConditions(base, plan.conditions)
    case None => Failure(TypeError)
    case Some(filtered) =>
      var joined := Joined(plan, filtered, others);
      var ordered := if Ordering(plan.orderBy) then OrderRows(joined, plan.orderBy.value, plan.orderDesc)
                     else Some(joined);
      if ordered.None? then Failure(TypeError)
      else Success(Project(Paginate(ordered.value, plan.offset, plan.limit), plan.columns))
  }

  /** Without a join the pipeline returns at most as many rows as it was
      given, and without a projection only rows it was given. */
  lemma ExecuteWithoutJoin(plan: Plan, base: seq<Record>, others: seq<Record>)
    requires !JoinActive(plan.join)
    ensures var r := Execute(plan, base, others);
      r.Success? ==> |r.value| <= |base| && (plan.columns == [] ==> forall row :: row in r.value ==> row in base)
  {
    var r := Execute(plan, base, others);
    if r.Success? {
      var filtered := ApplyConditions(base, plan.conditions).value;
      var ordered := if Ordering(plan.orderBy) then OrderRows(filtered, plan.orderBy.value, plan.orderDesc)
                     else Some(filtered);
      if Ordering(plan.orderBy) {
        OrderKeepsRows(filtered, plan.orderBy.value, plan.orderDesc);
      }
      PageRows(ordered.value, plan.offset, plan.limit);
      assert r.value == Project(Paginate(ordered.value, plan.offset, plan.limit), plan.columns);
    }
  }

  /** Ordering returns as many rows as it is given, and only those. */
  lemma OrderKeepsRows(rows: seq<Record>, field: string, desc: bool)
    requires OrderRows(rows, field, desc).Some?
    ensures var ordered := OrderRows(rows, field, desc).value;
      |ordered| == |rows| && forall row :: row in ordered ==> row in rows
  {
    var ordered := OrderRows(rows, field, desc).value;
    assert |multiset(ordered)| == |multiset(rows)|;
    forall row | row in ordered ensures row in rows {
      assert row in multiset(ordered);
    }
  }

  /** A page holds only rows of the sequence it was cut from. */
  lemma PageRows(rows: seq<Record>, offset: int, limit: Option<int>)
    ensures forall row :: row in Paginate(rows, offset, limit) ==> row in rows
  {
    var page := Paginate(rows, offset, limit);
    var start := if offset != 0 then PyBound(|rows|, offset) else 0;
    forall row | row in page ensures row in rows {
      var i :| 0 <= i < |page| && page[i] == row;
      assert page[i] == rows[start + i];
    }
  }

  /** The stages of `all()` after the base rows are fetched, run step by
      step: filter, join (nested loop), order, page, project. */
  method RunPlan(plan: Plan, base: seq<Record>, others: seq<Record>) returns (r: Result<seq<Record>, QueryError>)
    ensures r == Execute(plan, base, others)
  {
    var filtered := ApplyConditions(base, plan.conditions);
    if filtered.None? {
      return Failure(TypeError);
    }
    var rows := filtered.value;
    if JoinActive(plan.join) {
      rows := JoinLoop(rows, others, plan.join.value.baseField, plan.join.value.otherField);
    }
    if Ordering(plan.orderBy) {
      var ordered := OrderRows(rows, plan.orderBy.value, plan.orderDesc);
      if ordered.None? {
        return Failure(TypeError);
      }
      rows := ordered.value;
    }
    rows := Paginate(rows, plan.offset, plan.limit);
    rows := Project(rows, plan.columns);
    r := Success(rows);
  }

  /** With a limit of 1 a query returns at most one row. */
  lemma LimitOneGivesAtMostOne(plan: Plan, base: seq<Record>, others: seq<Record>)
    requires plan.limit == Some(1)
    requires Execute(plan, base, others).Success?
    ensures |Execute(plan, base, others).value| <= 1
  {
  }

  /** A query with only conditions returns exactly the base rows that pass
      them all, in their order. */
  lemma FilterOnlyQuery(plan: Plan, base: seq<Record>, others: seq<Record>)
    requires !JoinActive(plan.join) && !Ordering(plan.orderBy)
    requires plan.limit.None? && plan.offset == 0 && plan.columns == []
    requires forall row :: row in base ==> Check(row, plan.conditions).Some?
    ensures Execute(plan, base, others) == Success(Survivors(base, plan.conditions))
  {
    SequentialFilterIsConjunction(base, plan.conditions);
  }

  /** Three users aged 30, 25 and 35: `age > 25` keeps the first and the
      last, in order. */
  lemma AgeAbove25KeepsTwo()
    ensures var users := [map["id" := Int(1), "age" := Int(30)], map["id" := Int(2), "age" := Int(25)],
                          map["id" := Int(3), "age" := Int(35)]];
      FilterBy(users, Condition("age", Gt, One(Int(25)))) == Some([users[0], users[2]])
  {
    var users := [map["id" := Int(1), "age" := Int(30)], map["id" := Int(2), "age" := Int(25)],
                  map["id" := Int(3), "age" := Int(35)]];
    var c := Condition("age", Gt, One(Int(25)));
    assert Check(users[0], [c]) == Some(true);
    assert Check(users[1], [c]) == Some(false);
    assert Check(users[2], [c]) == Some(true);
    assert forall row :: row in users ==> Check(row, [c]).Some?;
    assert !(exists row :: row in users && Check(row, [c]).None?);
    assert users[2..][1..] == [] && users[1..][1..] == users[2..];
    assert Survivors(users[2..], [c]) == [users[2]] + Survivors([], [c]);
    assert Survivors(users[1..], [c]) == Survivors(users[2..], [c]);
    assert Survivors(users, [c]) == [users[0]] + Survivors(users[1..], [c]);
    assert Survivors([], [c]) == [];
    assert Survivors(users, [c]) == [users[0], users[2]];
  }

  /** One user with two posts: the join on `id = user_id` gives two rows,
      each carrying the post's `title`. */
  lemma UserWithTwoPosts()
    ensures var user := map["id" := Int(1), "name" := Str("John")];
      var posts := [map["id" := Int(1), "user_id" := Int(1), "title" := Str("Post 1")],
                    map["id" := Int(2), "user_id" := Int(1), "title" := Str("Post 2")]];
      var out := JoinRows([user], posts, "id", "user_id");
      && out == [user + posts[0], user + posts[1]]
      && forall m :: m in out ==> "title" in m
  {
    var user := map["id" := Int(1), "name" := Str("John")];
    var posts := [map["id" := Int(1), "user_id" := Int(1), "title" := Str("Post 1")],
                  map["id" := Int(2), "user_id" := Int(1), "title" := Str("Post 2")]];
    assert posts[..1] == [posts[0]];
    assert JoinOne(user, posts[..1], "id", "user_id") == [user + posts[0]];
    assert [user][..0] == [];
  }

  // ---------------------------------------------------------------------------
  // Equality filters: an insertion-ordered dictionary field -> operand
  // ---------------------------------------------------------------------------

  type Filters = seq<(string, Operand)>

  function FilterFields(fs: Filters): (r: seq<string>)
    ensures |r| == |fs| && forall i :: 0 <= i < |fs| ==> r[i] == fs[i].0
  {
    if fs == [] then [] else [fs[0].0] + FilterFields(fs[1..])
  }

  /** `self.eq_filters.get(field)`. */
  function LookupFilter(fs: Filters, field: string): Option<Operand>
  {
    if fs == [] then None
    else if fs[0].0 == field then Some(fs[0].1)
    else LookupFilter(fs[1..], field)
  }

  /** `self.eq_filters[field] = value`: the last value set for a field wins
      and other fields keep theirs; a known field keeps its place, a new one
      goes last. */
  function PutFilter(fs: Filters, field: string, v: Operand): (r: Filters)
    ensures forall g :: LookupFilter(r, g) == if g == field then Some(v) else LookupFilter(fs, g)
    ensures FilterFields(r) == if field in FilterFields(fs) then FilterFields(fs) else FilterFields(fs) + [field]
  {
    if fs == [] then [(field, v)]
    else if fs[0].0 == field then [(field, v)] + fs[1..]
    else
      assert FilterFields(fs) == [fs[0].0] + FilterFields(fs[1..]);
      [fs[0]] + PutFilter(fs[1..], field, v)
  }

  // ---------------------------------------------------------------------------
  // The builder
  // ---------------------------------------------------------------------------

  /** `first()`'s result from `all()`'s. */
  function FirstOf(r: Result<seq<Record>, QueryError>): (f: Result<Option<Record>, QueryError>)
    ensures f.Failure? <==> r.Failure?
    ensures f.Success? ==> (f.value.None? <==> r.value == []) && (f.value.Some? ==> f.value.value == r.value[0])
  {
    match r
    case Failure(e) => Failure(e)
    case Success(rows) => Success(if rows == [] then None else Some(rows[0]))
  }

  class QueryBuilder {
    const db: JsonDatabase
    const baseTable: string
    /** `select_columns`: none selected and an empty selection behave alike. */
    var selectColumns: seq<string>
    var conditions: seq<Condition>
    var eqFilters: Filters
    var orderBy: Option<string>
    var orderDesc: bool
    var limit: Option<int>
    var offset: int
    var join: Option<JoinSpec>

    function CurrentPlan(): Plan
      reads this
    {
      Plan(conditions, join, orderBy, orderDesc, limit, offset, selectColumns)
    }

    /** The table whose rows the join reads (`self.db.select(self.join_table)`). */
    function JoinTable(): string
      reads this
    {
      if JoinActive(join) then join.value.table else ""
    }

    constructor (db: JsonDatabase, table: string)
      ensures this.db == db && baseTable == table
      ensures selectColumns == [] && conditions == [] && eqFilters == []
      ensures orderBy == None && !orderDesc && limit == None && offset == 0 && join == None
    {
      this.db := db;
      baseTable := table;
      selectColumns := [];
      conditions := [];
      eqFilters := [];
      orderBy := None;
      orderDesc := false;
      limit := None;
      offset := 0;
      join := None;
    }

    method Select(columns: seq<string>) returns (b: QueryBuilder)
      modifies this
      ensures b == this && selectColumns == columns
      ensures conditions == old(conditions) && eqFilters == old(eqFilters) && orderBy == old(orderBy)
      ensures orderDesc == old(orderDesc) && limit == old(limit) && offset == old(offset) && join == old(join)
    {
      selectColumns := columns;
      b := this;
    }

    /** Adds a condition; an "=" condition also records its value as the
        field's equality filter. */
    method Where(field: string, op: string, value: Operand) returns (b: QueryBuilder)
      modifies this
      ensures b == this
      ensures conditions == old(conditions) + [Condition(field, ParseOp(op), value)]
      ensures eqFilters == if op == "=" then PutFilter(old(eqFilters), field, value) else old(eqFilters)
      ensures selectColumns == old(selectColumns) && orderBy == old(orderBy)
      ensures orderDesc == old(orderDesc) && limit == old(limit) && offset == old(offset) && join == old(join)
    {
      conditions := conditions + [Condition(field, ParseOp(op), value)];
      if op == "=" {
        eqFilters := PutFilter(eqFilters, field, value);
      }
      b := this;
    }

    method OrderBy(field: string, desc: bool) returns (b: QueryBuilder)
      modifies this
      ensures b == this && orderBy == Some(field) && orderDesc == desc
      ensures selectColumns == old(selectColumns) && conditions == old(conditions) && eqFilters == old(eqFilters)
      ensures limit == old(limit) && offset == old(offset) && join == old(join)
    {
      orderBy := Some(field);
      orderDesc := desc;
      b := this;
    }

    method Limit(n: Option<int>) returns (b: QueryBuilder)
      modifies this
      ensures b == this && limit == n
      ensures selectColumns == old(selectColumns) && conditions == old(conditions) && eqFilters == old(eqFilters)
      ensures orderBy == old(orderBy) && orderDesc == old(orderDesc) && offset == old(offset) && join == old(join)
    {
      limit := n;
      b := this;
    }

    method Offset(n: int) returns (b: QueryBuilder)
      modifies this
      ensures b == this && offset == n
      ensures selectColumns == old(selectColumns) && conditions == old(conditions) && eqFilters == old(eqFilters)
      ensures orderBy == old(orderBy) && orderDesc == old(orderDesc) && limit == old(limit) && join == old(join)
    {
      offset := n;
      b := this;
    }

    method Join(otherTable: string, baseField: string, otherField: string) returns (b: QueryBuilder)
      modifies this
      ensures b == this && join == Some(JoinSpec(otherTable, baseField, otherField))
      ensures selectColumns == old(selectColumns) && conditions == old(conditions) && eqFilters == old(eqFilters)
      ensures orderBy == old(orderBy) && orderDesc == old(orderDesc) && limit == old(limit) && offset == old(offset)
    {
      join := Some(JoinSpec(otherTable, baseField, otherField));
      b := this;
    }

    /** What the fetch of the base rows returns: every stored row when
        `via` is None, and otherwise the live rows that the secondary index
        on the `via`-th equality filter's field lists under its value. */
    ghost predicate FetchedVia(base: seq<Record>, via: Option<nat>)
      reads this, db
    {
      && (via.None? ==> base == Load(db.store, baseTable))
      && (via.Some? ==> (
        && via.value < |eqFilters| && eqFilters[via.value].1.One?
        && baseTable in db.secondary && eqFilters[via.value].0 in db.secondary[baseTable]
        && baseTable in db.indexes
        && LiveRows(base, Members(db.secondary[baseTable][eqFilters[via.value].0], eqFilters[via.value].1.value),
                    db.indexes[baseTable])
        && BuildRowIndex(db.SchemaOf(baseTable), Load(db.store, baseTable)) == Some(db.indexes[baseTable])))
      && (forall row :: row in base ==> row in Load(db.store, baseTable))
    }

    /** Step 1 of `all()`: tries an index lookup for each equality filter in
        order and keeps the first that does not raise; a list value raises
        after the index has been created. Falls back to all the table's rows.
        `via` tells which filter's lookup was used. */
    method FetchBase() returns (base: seq<Record>, ghost via: Option<nat>)
      requires db.Valid()
      modifies db
      ensures db.Valid()
      ensures db.store == old(db.store) && db.schemas == old(db.schemas)
      ensures FetchedVia(base, via)
    {
      var i := 0;
      via := None;
      while i < |eqFilters|
        invariant 0 <= i <= |eqFilters|
        invariant db.Valid()
        invariant db.store == old(db.store) && db.schemas == old(db.schemas)
        invariant via == None
        decreases |eqFilters| - i
      {
        var (field, operand) := eqFilters[i];
        if operand.Many? {
          if baseTable !in db.secondary || field !in db.secondary[baseTable] {
            var created := db.CreateIndex(baseTable, field);
          }
        } else {
          var found := db.GetRowsByIndex(baseTable, field, operand.value);
          if found.Success? {
            base := found.value;
            via := Some(i);
            forall row | row in base ensures row in Load(db.store, baseTable) {
              var k :| k in db.indexes[baseTable] && db.indexes[baseTable][k] == row;
              RowIndexRowsAreStored(db.SchemaOf(baseTable), Load(db.store, baseTable), k);
            }
            return;
          }
        }
        i := i + 1;
      }
      base := db.Select(baseTable);
    }

    /** `all()`: the base rows through the pipeline. */
    method All() returns (r: Result<seq<Record>, QueryError>, ghost base: seq<Record>, ghost via: Option<nat>)
      requires db.Valid()
      modifies db
      ensures db.Valid()
      ensures db.store == old(db.store) && db.schemas == old(db.schemas)
      ensures FetchedVia(base, via)
      ensures eqFilters == [] ==> base == Load(db.store, baseTable)
      ensures r == Execute(CurrentPlan(), base, Load(db.store, JoinTable()))
    {
      var fetched;
      fetched, via := FetchBase();
      base := fetched;
      var others := [];
      if JoinActive(join) {
        others := db.Select(join.value.table);
      }
      r := RunPlan(CurrentPlan(), fetched, others);
    }

    /** `first()`: sets the limit to 1 (it stays set) and returns the first
        row, or None. */
    method First() returns (r: Result<Option<Record>, QueryError>, ghost base: seq<Record>, ghost via: Option<nat>)
      requires db.Valid()
      modifies this, db
      ensures db.Valid()
      ensures limit == Some(1)
      ensures selectColumns == old(selectColumns) && conditions == old(conditions) && eqFilters == old(eqFilters)
      ensures orderBy == old(orderBy) && orderDesc == old(orderDesc) && offset == old(offset) && join == old(join)
      ensures db.store == old(db.store) && db.schemas == old(db.schemas)
      ensures FetchedVia(base, via)
      ensures r == FirstOf(Execute(CurrentPlan(), base, Load(db.store, JoinTable())))
    {
      var b := Limit(Some(1));
      var rows;
      rows, base, via := All();
      r := FirstOf(rows);
    }
  }
}
