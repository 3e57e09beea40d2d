/**
 * Python's `sorted(rows, key=lambda x: x.get(field, None), reverse=desc)`,
 * the ordering step of the query pipeline: a stable sort by one field.
 * With `reverse=True` Python still keeps rows with equal keys in their
 * original order; it is not the ascending result reversed.
 */
module StableSort {
  import opened Values

  function Key(row: Record, field: string): Value
  {
    Get(row, field)
  }

  /** Row `a` goes strictly before row `b`. */
  predicate Precedes(a: Record, b: Record, field: string, desc: bool)
  {
    if desc then Less(Key(b, field), Key(a, field)) else Less(Key(a, field), Key(b, field))
  }

  /** Python sorts without a TypeError: at most one row, or all keys numeric
      (int or bool), or all keys strings. */
  predicate UniformKeys(rows: seq<Record>, field: string)
  {
    || |rows| <= 1
    || (forall r :: r in rows ==> IsNumeric(Key(r, field)))
    || (forall r :: r in rows ==> Key(r, field).Str?)
  }

  /** No row is preceded by a later one. */
  predicate SortedBy(rows: seq<Record>, field: string, desc: bool)
  {
    forall i, j :: 0 <= i < j < |rows| ==> !Precedes(rows[j], rows[i], field, desc)
  }

  /** Inserts `x` before the first row it does not follow. */
  function Insert(x: Record, rows: seq<Record>, field: string, desc: bool): (r: seq<Record>)
    ensures multiset(r) == multiset(rows) + multiset{x}
  {
    if rows == [] || !Precedes(rows[0], x, field, desc) then [x] + rows
    else
      assert rows == [rows[0]] + rows[1..];
      [rows[0]] + Insert(x, rows[1..], field, desc)
  }

  /** Insertion sort; earlier rows are inserted in front of equal later ones. */
  function Sort(rows: seq<Record>, field: string, desc: bool): (r: seq<Record>)
    ensures multiset(r) == multiset(rows)
  {
    if rows == [] then []
    else
      assert rows == [rows[0]] + rows[1..];
      Insert(rows[0], Sort(rows[1..], field, desc), field, desc)
  }

  lemma UniformSub(rows: seq<Record>, sub: seq<Record>, field: string)
    requires UniformKeys(rows, field)
    requires |sub| <= |rows| && forall r :: r in sub ==> r in rows
    ensures UniformKeys(sub, field)
  {
  }

  lemma SameElements(a: seq<Record>, b: seq<Record>)
    requires multiset(a) == multiset(b)
    ensures |a| == |b| && forall r :: r in a <==> r in b
  {
    assert |multiset(a)| == |a| && |multiset(b)| == |b|;
    forall r ensures r in a <==> r in b {
      assert r in a <==> r in multiset(a);
      assert r in b <==> r in multiset(b);
    }
  }

  lemma PrecedesFacts(a: Record, b: Record, c: Record, field: string, desc: bool)
    requires Comparable(Key(a, field), Key(b, field)) && Comparable(Key(b, field), Key(c, field))
    ensures !Precedes(a, a, field, desc)
    ensures Precedes(a, b, field, desc) ==> !Precedes(b, a, field, desc)
    ensures !Precedes(a, b, field, desc) && !Precedes(b, c, field, desc) ==> !Precedes(a, c, field, desc)
  {
    var ka, kb, kc := Key(a, field), Key(b, field), Key(c, field);
    LessStrictWeakOrder(ka, kb, kc);
    LessStrictWeakOrder(kc, kb, ka);
    LessStrictWeakOrder(ka, kb, ka);
  }

  lemma ComparableIn(rows: seq<Record>, a: Record, b: Record, field: string)
    requires UniformKeys(rows, field) && a in rows && b in rows && |rows| > 1
    ensures Comparable(Key(a, field), Key(b, field))
  {
  }

  lemma InsertUnfold(x: Record, rows: seq<Record>, field: string, desc: bool)
    ensures Insert(x, rows, field, desc) ==
            if rows != [] && Precedes(rows[0], x, field, desc) then [rows[0]] + Insert(x, rows[1..], field, desc)
            else [x] + rows
  {
  }

  /** `x` goes in front: it is not preceded by any row of the sorted `rows`. */
  lemma InsertSortedFront(x: Record, rows: seq<Record>, field: string, desc: bool)
    requires UniformKeys([x] + rows, field) && SortedBy(rows, field, desc)
    requires rows != [] && !Precedes(rows[0], x, field, desc)
    ensures SortedBy([x] + rows, field, desc)
  {
    var all := [x] + rows;
    forall j | 0 <= j < |rows| ensures !Precedes(rows[j], x, field, desc) {
      ComparableIn(all, rows[j], rows[0], field);
      ComparableIn(all, rows[0], x, field);
      PrecedesFacts(rows[j], rows[0], x, field, desc);
    }
    forall i, j | 0 <= i < j < |all| ensures !Precedes(all[j], all[i], field, desc) {
      if i > 0 {
        assert all[i] == rows[i - 1] && all[j] == rows[j - 1];
      }
    }
  }

  /** `x` goes after `head`: no row of the rest precedes `head`. */
  lemma InsertSortedPast(x: Record, head: Record, ins: seq<Record>, tail: seq<Record>, field: string, desc: bool)
    requires UniformKeys([x] + ([head] + tail), field) && SortedBy([head] + tail, field, desc)
    requires Precedes(head, x, field, desc)
    requires multiset(ins) == multiset(tail) + multiset{x} && SortedBy(ins, field, desc)
    ensures SortedBy([head] + ins, field, desc)
  {
    var all := [x] + ([head] + tail);
    var rows := [head] + tail;
    forall j | 0 <= j < |ins| ensures !Precedes(ins[j], head, field, desc) {
      assert ins[j] in multiset(ins);
      if ins[j] == x {
        ComparableIn(all, x, head, field);
        PrecedesFacts(head, x, x, field, desc);
      } else {
        var k :| 0 <= k < |tail| && tail[k] == ins[j];
        assert rows[k + 1] == ins[j] && rows[0] == head;
      }
    }
    var out := [head] + ins;
    forall i, j | 0 <= i < j < |out| ensures !Precedes(out[j], out[i], field, desc) {
      if i > 0 {
        assert out[i] == ins[i - 1] && out[j] == ins[j - 1];
      }
    }
  }

  lemma {:induction false} InsertSorted(x: Record, rows: seq<Record>, field: string, desc: bool)
    requires UniformKeys([x] + rows, field)
    requires SortedBy(rows, field, desc)
    ensures SortedBy(Insert(x, rows, field, desc), field, desc)
  {
    InsertUnfold(x, rows, field, desc);
    if rows == [] {
    } else if !Precedes(rows[0], x, field, desc) {
      InsertSortedFront(x, rows, field, desc);
    } else {
      var head, tail := rows[0], rows[1..];
      assert rows == [head] + tail;
      UniformSub([x] + rows, [x] + tail, field);
      assert SortedBy(tail, field, desc) by {
        forall i, j | 0 <= i < j < |tail| ensures !Precedes(tail[j], tail[i], field, desc) {
          assert tail[i] == rows[i + 1] && tail[j] == rows[j + 1];
        }
      }
      InsertSorted(x, tail, field, desc);
      InsertSortedPast(x, head, Insert(x, tail, field, desc), tail, field, desc);
    }
  }

  /** The sort's result is ordered by the key, ascending or descending. */
  lemma {:induction false} SortIsSorted(rows: seq<Record>, field: string, desc: bool)
    requires UniformKeys(rows, field)
    ensures SortedBy(Sort(rows, field, desc), field, desc)
  {
    if rows != [] {
      UniformSub(rows, rows[1..], field);
      SortIsSorted(rows[1..], field, desc);
      assert rows == [rows[0]] + rows[1..];
      SameElements(Sort(rows[1..], field, desc), rows[1..]);
      UniformSub(rows, [rows[0]] + Sort(rows[1..], field, desc), field);
      InsertSorted(rows[0], Sort(rows[1..], field, desc), field, desc);
    }
  }

  /** The rows whose key equals `k`, in their order. */
  function WithKey(rows: seq<Record>, field: string, k: Value): (r: seq<Record>)
    ensures |r| <= |rows|
  {
    if rows == [] then []
    else (if Equivalent(Key(rows[0], field), k) then [rows[0]] else []) + WithKey(rows[1..], field, k)
  }

  /** Two rows whose keys both equal `k` never precede one another. */
  lemma EquivalentNotPrecedes(a: Record, b: Record, field: string, desc: bool, k: Value)
    requires Equivalent(Key(a, field), k) && Equivalent(Key(b, field), k)
    ensures !Precedes(a, b, field, desc)
  {
    LessStrictWeakOrder(Key(a, field), k, Key(b, field));
    LessStrictWeakOrder(Key(b, field), k, Key(a, field));
  }

  lemma WithKeyCons(a: Record, rest: seq<Record>, field: string, k: Value)
    ensures WithKey([a] + rest, field, k) == Matching(a, field, k) + WithKey(rest, field, k)
  {
    assert ([a] + rest)[1..] == rest;
  }

  /** The rows with key `k` among `row` alone. */
  function Matching(row: Record, field: string, k: Value): seq<Record>
  {
    if Equivalent(Key(row, field), k) then [row] else []
  }

  /** Passing a row that precedes `x` does not reorder the rows with key `k`. */
  lemma InsertStableStep(x: Record, head: Record, tail: seq<Record>, ins: seq<Record>,
                         field: string, desc: bool, k: Value)
    requires Precedes(head, x, field, desc)
    requires WithKey(ins, field, k) == Matching(x, field, k) + WithKey(tail, field, k)
    ensures WithKey([head] + ins, field, k) == Matching(x, field, k) + WithKey([head] + tail, field, k)
  {
    WithKeyCons(head, ins, field, k);
    WithKeyCons(head, tail, field, k);
    var w := WithKey(tail, field, k);
    if Equivalent(Key(x, field), k) && Equivalent(Key(head, field), k) {
      EquivalentNotPrecedes(head, x, field, desc, k);
      assert false;
    } else if Equivalent(Key(x, field), k) {
      assert Matching(head, field, k) == [];
      assert [] + ([x] + w) == [x] + ([] + w);
    } else {
      assert Matching(x, field, k) == [];
      assert Matching(head, field, k) + ([] + w) == [] + (Matching(head, field, k) + w);
    }
  }

  lemma {:induction false} InsertStable(x: Record, rows: seq<Record>, field: string, desc: bool, k: Value)
    ensures WithKey(Insert(x, rows, field, desc), field, k) == Matching(x, field, k) + WithKey(rows, field, k)
  {
    InsertUnfold(x, rows, field, desc);
    if rows != [] && Precedes(rows[0], x, field, desc) {
      var head, tail := rows[0], rows[1..];
      InsertStable(x, tail, field, desc, k);
      InsertStableStep(x, head, tail, Insert(x, tail, field, desc), field, desc, k);
      assert rows == [head] + tail;
    } else {
      WithKeyCons(x, rows, field, k);
    }
  }

  /** Stability: for every key, the rows with that key appear in the result in
      the order they had in the input. */
  lemma {:induction false} SortIsStable(rows: seq<Record>, field: string, desc: bool, k: Value)
    ensures WithKey(Sort(rows, field, desc), field, k) == WithKey(rows, field, k)
  {
    if rows != [] {
      SortIsStable(rows[1..], field, desc, k);
      InsertStable(rows[0], Sort(rows[1..], field, desc), field, desc, k);
      assert rows == [rows[0]] + rows[1..];
      WithKeyCons(rows[0], rows[1..], field, k);
    }
  }
}
