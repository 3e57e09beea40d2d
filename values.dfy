/**
 * Field values and records of the store.
 *
 * A record is a JSON object: a mapping from field name to a primitive value.
 * Python's dynamic values are given a closed, tagged representation here.
 */
module Values {

  /** A field value. Floats are opaque: only their identity is modelled. */
  datatype Value =
    | Int(i: int)
    | Str(s: string)
    | Bool(b: bool)
    | Float(token: int)
    | Null

  /** A record: field name to value. Key order is not modelled. */
  type Record = map<string, Value>

  /** `row.get(field)`: the value, or None when the field is absent. */
  function Get(row: Record, field: string): Value
  {
    if field in row then row[field] else Null
  }

  /** `all(row.get(k) == v for k, v in where.items())`; true for an empty `where`. */
  predicate Matches(row: Record, where: map<string, Value>)
    ensures where == map[] ==> Matches(row, where)
    ensures Matches(row, where) ==> forall k :: k in where && where[k] != Null ==> k in row
    ensures Matches(row, where) ==> forall k :: k in where && k !in row ==> where[k] == Null
  {
    forall k :: k in where ==> Get(row, k) == where[k]
  }

  // ---------------------------------------------------------------------------
  // Python's ordering of primitive values.
  //
  // `bool` is a subclass of `int`, so booleans compare as 0 and 1 against
  // integers; strings compare lexicographically by code point. Any other pair
  // (None, a float against anything, a string against a number) raises
  // TypeError in Python; `Less` is false on such pairs and the callers that
  // compare require `Comparable`.
  // ---------------------------------------------------------------------------

  predicate IsNumeric(v: Value)
  {
    v.Int? || v.Bool?
  }

  function Num(v: Value): int
    requires IsNumeric(v)
  {
    if v.Int? then v.i else if v.b then 1 else 0
  }

  /** The pair can be compared with `<` without a TypeError. */
  predicate Comparable(a: Value, b: Value)
  {
    (IsNumeric(a) && IsNumeric(b)) || (a.Str? && b.Str?)
  }

  /** Lexicographic order on strings, by code point. */
  predicate StrLess(a: string, b: string)
  {
    if |a| == 0 then |b| > 0
    else if |b| == 0 then false
    else if a[0] == b[0] then StrLess(a[1..], b[1..])
    else a[0] < b[0]
  }

  /** Python's `a < b` on a comparable pair. */
  predicate Less(a: Value, b: Value)
  {
    if IsNumeric(a) && IsNumeric(b) then Num(a) < Num(b)
    else if a.Str? && b.Str? then StrLess(a.s, b.s)
    else false
  }

  /** Python's `a == b` as far as ordering is concerned (`1 == True` here). */
  predicate Equivalent(a: Value, b: Value)
  {
    Comparable(a, b) && !Less(a, b) && !Less(b, a)
  }

  lemma {:induction false} StrLessIrreflexive(a: string)
    ensures !StrLess(a, a)
  {
    if |a| > 0 {
      StrLessIrreflexive(a[1..]);
    }
  }

  lemma {:induction false} StrLessTransitive(a: string, b: string, c: string)
    requires StrLess(a, b) && StrLess(b, c)
    ensures StrLess(a, c)
  {
    if |a| > 0 && |b| > 0 && |c| > 0 && a[0] == b[0] && b[0] == c[0] {
      StrLessTransitive(a[1..], b[1..], c[1..]);
    }
  }

  lemma {:induction false} StrLessTrichotomous(a: string, b: string)
    ensures StrLess(a, b) || StrLess(b, a) || a == b
  {
    if |a| > 0 && |b| > 0 && a[0] == b[0] {
      StrLessTrichotomous(a[1..], b[1..]);
      if a[1..] == b[1..] {
        assert a == [a[0]] + a[1..] && b == [b[0]] + b[1..];
      }
    }
  }

  /** On comparable values, `Less` is a strict weak order: irreflexive,
      transitive, and "not less" is transitive as well. */
  lemma LessStrictWeakOrder(a: Value, b: Value, c: Value)
    requires Comparable(a, b) && Comparable(b, c)
    ensures !Less(a, a)
    ensures Less(a, b) && Less(b, c) ==> Less(a, c)
    ensures !Less(a, b) && !Less(b, c) ==> !Less(a, c)
    ensures Equivalent(a, b) <==> (if IsNumeric(a) then Num(a) == Num(b) else a == b)
  {
    if a.Str? {
      StrLessIrreflexive(a.s);
      StrLessTrichotomous(a.s, b.s);
      StrLessTrichotomous(b.s, c.s);
      StrLessTrichotomous(a.s, c.s);
      if StrLess(a.s, b.s) && StrLess(b.s, c.s) {
        StrLessTransitive(a.s, b.s, c.s);
      }
      if StrLess(a.s, c.s) && !StrLess(a.s, b.s) && !StrLess(b.s, c.s) {
        if a.s != b.s {
          StrLessTransitive(b.s, a.s, c.s);
        }
      }
      if a.s == b.s {
        StrLessIrreflexive(a.s);
      }
    }
  }
}
