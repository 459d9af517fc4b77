/**
 * The parameterised INSERT and UPDATE statements the CRUD handler prepares:
 * the columns come from the registry (never from the client), one `?` per
 * column, and the type letters and values passed to `bind_param` are built
 * column by column so that they stay aligned with the columns.
 */
module Queries {
  import opened Schema

  /** `INSERT INTO table (columns) VALUES (placeholders)` with its bound parameters. */
  datatype InsertQuery = InsertQuery(
    table: TableName,
    columns: seq<string>,
    placeholders: seq<string>,
    types: string,
    values: seq<string>)

  /** `UPDATE table SET assignments WHERE id = ?` with its bound parameters;
      the last type letter and the last value belong to the id. */
  datatype UpdateQuery = UpdateQuery(
    table: TableName,
    columns: seq<string>,
    assignments: seq<string>,
    types: string,
    values: seq<string>)

  /** The i-th type letter and value are those of the i-th column. */
  predicate Aligned(t: TableName, cols: seq<string>, types: string, values: seq<string>, body: map<string, string>)
    requires forall k :: 0 <= k < |cols| ==> cols[k] in body && cols[k] in FieldNames(t)
  {
    && |types| == |cols| && |values| == |cols|
    && forall k :: 0 <= k < |cols| ==> types[k] == BindType(t, cols[k]) && values[k] == body[cols[k]]
  }

  /** The `foreach ($campi as $campo)` loop: appends each column's type letter
      to `$tipi` and its value from the body to `$valori`. */
  method BindParameters(t: TableName, cols: seq<string>, body: map<string, string>)
    returns (types: string, values: seq<string>)
    requires forall k :: 0 <= k < |cols| ==> cols[k] in body && cols[k] in FieldNames(t)
    ensures Aligned(t, cols, types, values, body)
  {
    types, values := "", [];
    for i := 0 to |cols|
      invariant |types| == i && |values| == i
      invariant forall k :: 0 <= k < i ==> types[k] == BindType(t, cols[k]) && values[k] == body[cols[k]]
    {
      types := types + [BindType(t, cols[i])];
      values := values + [body[cols[i]]];
    }
  }

  /** The INSERT a POST issues: exactly the registered columns present in the
      body, in registry order, one placeholder each, aligned parameters. */
  method BuildInsert(t: TableName, body: map<string, string>) returns (q: InsertQuery)
    ensures q.table == t && q.columns == SelectColumns(t, body)
    ensures forall c :: c in q.columns <==> c in body && c in FieldNames(t)
    ensures |q.placeholders| == |q.columns| && forall k :: 0 <= k < |q.placeholders| ==> q.placeholders[k] == "?"
    ensures Aligned(t, q.columns, q.types, q.values, body)
  {
    var cols := SelectColumns(t, body);
    var placeholders := seq(|cols|, _ => "?");
    var types, values := BindParameters(t, cols, body);
    q := InsertQuery(t, cols, placeholders, types, values);
  }

  /** The UPDATE a PUT issues: one `column = ?` per selected column, the same
      aligned parameters as an INSERT, then an 'i' and the id, last. */
  method BuildUpdate(t: TableName, body: map<string, string>, id: string) returns (q: UpdateQuery)
    ensures q.table == t && q.columns == SelectColumns(t, body)
    ensures forall c :: c in q.columns <==> c in body && c in FieldNames(t)
    ensures |q.assignments| == |q.columns|
    ensures forall k :: 0 <= k < |q.columns| ==> q.assignments[k] == q.columns[k] + " = ?"
    ensures |q.types| == |q.columns| + 1 && q.types[|q.columns|] == 'i'
    ensures |q.values| == |q.columns| + 1 && q.values[|q.columns|] == id
    ensures Aligned(t, q.columns, q.types[..|q.columns|], q.values[..|q.columns|], body)
  {
    var cols := SelectColumns(t, body);
    var assignments := seq(|cols|, k requires 0 <= k < |cols| => cols[k] + " = ?");
    var types, values := BindParameters(t, cols, body);
    types := types + "i";
    values := values + [id];
    q := UpdateQuery(t, cols, assignments, types, values);
  }
}
