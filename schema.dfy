/**
 * Table schemas: declared field types, an optional primary key, and record
 * validation (pysimdb/schema.py).
 */
module Schema {
  import opened Wrappers
  import opened Values

  /** The four Python types a schema may declare. */
  datatype TypeTag = IntType | StrType | FloatType | BoolType

  /** `isinstance(v, t)`. `bool` is a subclass of `int`, so an int tag accepts
      booleans; an int is not an instance of `float`; None is an instance of none. */
  predicate IsInstance(v: Value, t: TypeTag)
    ensures IsInstance(v, t) ==> !v.Null?
    ensures v.Bool? ==> (IsInstance(v, t) <==> t == IntType || t == BoolType)
    ensures v.Int? ==> (IsInstance(v, t) <==> t == IntType)
  {
    match t
    case IntType => v.Int? || v.Bool?
    case StrType => v.Str?
    case FloatType => v.Float?
    case BoolType => v.Bool?
  }

  /** The schema's declared fields, in declaration order, and its primary key. */
  datatype TableSchema = TableSchema(fields: seq<(string, TypeTag)>, primaryKey: Option<string>)
  {
    /** `if self.primary_key:` -- None and the empty string are both falsy. */
    predicate HasPrimaryKey()
    {
      primaryKey.Some? && primaryKey.value != ""
    }

    predicate Declares(name: string)
    {
      exists i :: 0 <= i < |fields| && fields[i].0 == name
    }

    /** What the constructor guarantees: each field is declared once (the
        fields come as a dict) and a primary key is a declared field. */
    predicate WellFormed()
    {
      DistinctNames(fields) && (HasPrimaryKey() ==> Declares(primaryKey.value))
    }
  }

  /** No field name is declared twice, as in the dict the schema is built from. */
  predicate DistinctNames(fields: seq<(string, TypeTag)>)
  {
    forall i, j :: 0 <= i < j < |fields| ==> fields[i].0 != fields[j].0
  }

  /** The `SchemaError`s raised by `validate`. */
  datatype SchemaError =
    | MissingField(field: string)
    | WrongType(field: string, expected: TypeTag)
    | MissingPrimaryKey(key: string)

  /** `TableSchema(fields, primary_key)`: fails (ValueError) when a primary key
      is given that is not among the declared fields. */
  function NewSchema(fields: seq<(string, TypeTag)>, primaryKey: Option<string>): (r: Result<TableSchema, string>)
    requires DistinctNames(fields)
    ensures r.Success? <==> TableSchema(fields, primaryKey).WellFormed()
    ensures r.Success? ==> r.value.fields == fields && r.value.primaryKey == primaryKey
    ensures r.Failure? ==> exists pk :: primaryKey == Some(pk) && pk != "" &&
                                      forall i :: 0 <= i < |fields| ==> fields[i].0 != pk
  {
    var s := TableSchema(fields, primaryKey);
    if s.HasPrimaryKey() && !s.Declares(primaryKey.value) then
      Failure("primary key must be a field in schema")
    else
      Success(s)
  }

  /** The field loop of `validate`: the first declared field that is absent or
      of the wrong type, in declaration order. */
  function CheckFields(fields: seq<(string, TypeTag)>, record: Record): (r: Outcome<SchemaError>)
    ensures r.Fail? && r.error.MissingField? ==>
      (exists i :: 0 <= i < |fields| && fields[i].0 == r.error.field) && r.error.field !in record
    ensures r.Fail? && r.error.WrongType? ==>
      (r.error.field, r.error.expected) in fields && r.error.field in record &&
      !IsInstance(record[r.error.field], r.error.expected)
    ensures r.Fail? ==> !r.error.MissingPrimaryKey?
  {
    if fields == [] then Pass
    else
      var (name, tag) := fields[0];
      if name !in record then Fail(MissingField(name))
      else if !IsInstance(record[name], tag) then Fail(WrongType(name, tag))
      else
        var rest := CheckFields(fields[1..], record);
        assert rest.Fail? && rest.error.MissingField? ==>
          exists i :: 0 <= i < |fields| && fields[i].0 == rest.error.field by {
          if rest.Fail? && rest.error.MissingField? {
            var i :| 0 <= i < |fields[1..]| && fields[1..][i].0 == rest.error.field;
            assert fields[i + 1].0 == rest.error.field;
          }
        }
        rest
  }

  /** `validate(record)`: Pass, or the first SchemaError raised. */
  function Validate(schema: TableSchema, record: Record): (r: Outcome<SchemaError>)
    ensures r.Fail? && r.error.MissingPrimaryKey? ==>
      schema.HasPrimaryKey() && r.error.key == schema.primaryKey.value && r.error.key !in record &&
      CheckFields(schema.fields, record).Pass?
    ensures r.Fail? && !r.error.MissingPrimaryKey? ==> r == CheckFields(schema.fields, record)
  {
    match CheckFields(schema.fields, record)
    case Fail(e) => Fail(e)
    case Pass =>
      if schema.HasPrimaryKey() && schema.primaryKey.value !in record then
        Fail(MissingPrimaryKey(schema.primaryKey.value))
      else
        Pass
  }

  /** Every declared field is present with a value of its declared type. */
  predicate Conforms(fields: seq<(string, TypeTag)>, record: Record)
  {
    forall i :: 0 <= i < |fields| ==> fields[i].0 in record && IsInstance(record[fields[i].0], fields[i].1)
  }

  lemma {:induction false} CheckFieldsPassesExactly(fields: seq<(string, TypeTag)>, record: Record)
    ensures CheckFields(fields, record).Pass? <==> Conforms(fields, record)
  {
    if fields != [] {
      CheckFieldsPassesExactly(fields[1..], record);
      if Conforms(fields, record) {
        assert Conforms(fields[1..], record) by {
          forall i | 0 <= i < |fields[1..]|
            ensures fields[1..][i].0 in record && IsInstance(record[fields[1..][i].0], fields[1..][i].1)
          {
            assert fields[1..][i] == fields[i + 1];
          }
        }
      }
      if CheckFields(fields, record).Pass? {
        forall i | 0 <= i < |fields|
          ensures fields[i].0 in record && IsInstance(record[fields[i].0], fields[i].1)
        {
          if i > 0 {
            assert fields[i] == fields[1..][i - 1];
          }
        }
      }
    }
  }

  /** A record is accepted exactly when every declared field is present and an
      instance of its declared type, and a declared primary key is present. */
  lemma ValidateAcceptsExactly(schema: TableSchema, record: Record)
    ensures Validate(schema, record).Pass? <==>
      Conforms(schema.fields, record) &&
      (schema.HasPrimaryKey() ==> schema.primaryKey.value in record)
  {
    CheckFieldsPassesExactly(schema.fields, record);
  }

  /** A declared field that is absent from the record makes `validate` fail. */
  lemma MissingFieldRejected(schema: TableSchema, record: Record, i: nat)
    requires i < |schema.fields| && schema.fields[i].0 !in record
    ensures Validate(schema, record).Fail?
  {
    ValidateAcceptsExactly(schema, record);
  }

  /** A declared field whose value is not an instance of its type makes
      `validate` fail. */
  lemma WrongTypeRejected(schema: TableSchema, record: Record, i: nat)
    requires i < |schema.fields| && schema.fields[i].0 in record
    requires !IsInstance(record[schema.fields[i].0], schema.fields[i].1)
    ensures Validate(schema, record).Fail?
  {
    ValidateAcceptsExactly(schema, record);
  }

  /** Given the constructor's check, the primary-key test at the end of
      `validate` never fires on its own: a record that passes the field loop
      already holds the key. */
  lemma PrimaryKeyImpliedByFields(schema: TableSchema, record: Record)
    requires schema.WellFormed() && schema.HasPrimaryKey()
    requires CheckFields(schema.fields, record).Pass?
    ensures schema.primaryKey.value in record
    ensures Validate(schema, record) == Pass
  {
    CheckFieldsPassesExactly(schema.fields, record);
  }

  /** Fields the schema does not declare never change the verdict. */
  lemma {:induction false} UndeclaredFieldsIgnored(fields: seq<(string, TypeTag)>, record: Record, extra: Record)
    requires forall k :: k in extra ==> forall i :: 0 <= i < |fields| ==> fields[i].0 != k
    ensures CheckFields(fields, record + extra) == CheckFields(fields, record)
  {
    if fields != [] {
      assert fields[0].0 !in extra;
      UndeclaredFieldsIgnored(fields[1..], record, extra);
    }
  }

  /** The same, for the whole of `validate` on a schema built by the
      constructor. */
  lemma ValidateIgnoresUndeclared(schema: TableSchema, record: Record, extra: Record)
    requires schema.WellFormed()
    requires forall k :: k in extra ==> !schema.Declares(k)
    ensures Validate(schema, record + extra) == Validate(schema, record)
  {
    UndeclaredFieldsIgnored(schema.fields, record, extra);
  }

  /** The users schema of the test suite: id, name, age and email. */
  function UsersSchema(): TableSchema
  {
    TableSchema([("id", IntType), ("name", StrType), ("age", IntType), ("email", StrType)], Some("id"))
  }

  /** A string id under an int tag is rejected, naming the field; a boolean
      under an int tag is accepted. */
  lemma StringIdRejected()
    ensures Validate(UsersSchema(), map["id" := Str("1"), "name" := Str("John Doe"),
                                       "age" := Int(30), "email" := Str("john@example.com")])
            == Fail(WrongType("id", IntType))
    ensures Validate(UsersSchema(), map["id" := Bool(true), "name" := Str("John Doe"),
                                       "age" := Int(30), "email" := Str("john@example.com")])
            == Pass
  {
  }
}
