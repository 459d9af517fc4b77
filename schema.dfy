/**
 * The static metadata registry of the web service: the two CRUD tables, their
 * columns with the `bind_param` type of each, the required fields, the
 * singular label used in messages, and the allow-list filter that keeps only
 * registered columns of a request body.
 */
module Schema {
  import opened Php

  /** The tables served by the generic CRUD handler. */
  datatype TableName = Studenti | Corsi

  /** The table's name in URLs and in SQL. */
  function Name(t: TableName): string
  {
    match t
    case Studenti => "studenti"
    case Corsi => "corsi"
  }

  /** A stored row: column name to value; a column the store left NULL is absent. */
  type Row = map<string, string>

  /** An enrollment as the join queries return it: its own columns and the joined
      columns of the other side are kept in `columns`. */
  datatype Enrollment = Enrollment(id: int, studentId: int, courseId: int, columns: Row)

  /** A registered column and its `bind_param` type letter ('s' string, 'd' double). */
  datatype Field = Field(name: string, bindType: char)

  /** `$campiTabella`: each table's columns, in declaration order. */
  function Fields(t: TableName): seq<Field>
  {
    match t
    case Studenti =>
      [Field("nome", 's'), Field("cognome", 's'), Field("email", 's'), Field("data_nascita", 's')]
    case Corsi =>
      [Field("titolo", 's'), Field("descrizione", 's'), Field("docente", 's'), Field("prezzo", 'd')]
  }

  function FieldNames(t: TableName): (names: seq<string>)
    ensures |names| == |Fields(t)|
    ensures forall k :: 0 <= k < |names| ==> names[k] == Fields(t)[k].name
  {
    seq(|Fields(t)|, k requires 0 <= k < |Fields(t)| => Fields(t)[k].name)
  }

  /** `$campiObbligatori`: the fields a POST must supply, in the order they are checked. */
  function Required(t: TableName): (fields: seq<string>)
    ensures |fields| >= 1 && Distinct(fields)
  {
    match t
    case Studenti => ["nome", "cognome", "email", "data_nascita"]
    case Corsi => ["titolo", "docente", "prezzo"]
  }

  predicate Distinct(s: seq<string>)
  {
    forall i, j :: 0 <= i < j < |s| ==> s[i] != s[j]
  }

  /** The registry is consistent: column names are distinct, every required
      field is a column, and every type letter is one `bind_param` knows. */
  lemma RegistryWellFormed(t: TableName)
    ensures Distinct(FieldNames(t))
    ensures forall f :: f in Required(t) ==> f in FieldNames(t)
    ensures forall k :: 0 <= k < |Fields(t)| ==> Fields(t)[k].bindType in {'s', 'i', 'd', 'b'}
  {
    var names := FieldNames(t);
    match t
    case Studenti =>
      assert names == ["nome", "cognome", "email", "data_nascita"];
    case Corsi =>
      assert names == ["titolo", "descrizione", "docente", "prezzo"];
  }

  /** The `bind_param` letter of a registered column (`$campiTabella[$t][$campo]`). */
  function BindType(t: TableName, column: string): (c: char)
    requires column in FieldNames(t)
    ensures exists k :: 0 <= k < |Fields(t)| && Fields(t)[k] == Field(column, c)
  {
    FieldType(Fields(t), column)
  }

  function FieldType(fields: seq<Field>, column: string): (c: char)
    requires exists k :: 0 <= k < |fields| && fields[k].name == column
    ensures exists k :: 0 <= k < |fields| && fields[k] == Field(column, c)
  {
    if fields[0].name == column then fields[0].bindType
    else
      var c := FieldType(fields[1..], column);
      assert exists k :: 0 <= k < |fields| && fields[k] == Field(column, c) by {
        var k :| 0 <= k < |fields[1..]| && fields[1..][k] == Field(column, c);
        assert fields[k + 1] == Field(column, c);
      }
      c
  }

  /** `rtrim($tabella, 'i')`: the label used in "not found" messages. */
  function Singular(t: TableName): (r: string)
    ensures r + "i" == Name(t)
  {
    var name := Name(t);
    assert |name| >= 2 && name[|name| - 1] == 'i' && name[|name| - 2] != 'i';
    RTrimOne(name, 'i');
    RTrim(name, 'i')
  }

  /** `ucfirst($singolare) . " non trovato"`. */
  function NotFoundMessage(t: TableName): (m: string)
    ensures var name := Name(t);
      m == [Upper(name[0])] + name[1..|name| - 1] + " non trovato"
  {
    var name := Name(t);
    var word := Singular(t);
    assert word == name[..|name| - 1];
    UcFirst(word) + " non trovato"
  }

  // The two messages below are written as word + suffix: a single literal
  // makes the solver compare them character by character, at ten times the cost.

  /** Stripping the trailing 'i' of "studenti" gives "student". */
  lemma StudentNotFoundMessage()
    ensures NotFoundMessage(Studenti) == "Student" + " non trovato"
  {
    MessageOf(Studenti, 's', "tudent", "Student");
  }

  /** Stripping the trailing 'i' of "corsi" gives "cors", not "corso". */
  lemma CourseNotFoundMessage()
    ensures NotFoundMessage(Corsi) == "Cors" + " non trovato"
  {
    MessageOf(Corsi, 'c', "ors", "Cors");
  }

  /** The message of a table whose name is a word followed by one 'i': the
      word, capitalised. */
  lemma MessageOf(t: TableName, first: char, rest: string, word: string)
    requires Name(t) == [first] + rest + "i" && rest != [] && rest[|rest| - 1] != 'i'
    requires word == [Upper(first)] + rest
    ensures NotFoundMessage(t) == word + " non trovato"
  {
    var n := Name(t);
    assert n[..|n| - 1] == [first] + rest;
    assert Singular(t) == [first] + rest;
    var u := UcFirst([first] + rest);
    assert u == [u[0]] + u[1..];
  }

  // ---------------------------------------------------------------- allow-list

  /** `array_keys(array_intersect_key($fields, $body))`: the names that are keys
      of the body, kept in the order of `names`. */
  function KeepKeys(names: seq<string>, body: map<string, string>): (cols: seq<string>)
    ensures |cols| <= |names|
    ensures forall c :: c in cols <==> c in names && c in body
    ensures Distinct(names) ==> Distinct(cols)
  {
    if names == [] then []
    else
      var rest := KeepKeys(names[1..], body);
      assert names[0] in rest ==> names[0] in names[1..];
      if names[0] in body then [names[0]] + rest else rest
  }

  /** The columns an INSERT or UPDATE writes for this body. */
  function SelectColumns(t: TableName, body: map<string, string>): (cols: seq<string>)
    ensures forall c :: c in cols <==> c in body && c in FieldNames(t)
    ensures Distinct(cols) && |cols| <= |FieldNames(t)|
  {
    RegistryWellFormed(t);
    KeepKeys(FieldNames(t), body)
  }

  /** A body that names none of the columns selects nothing. */
  lemma {:induction false} KeepKeysNone(names: seq<string>, body: map<string, string>)
    requires forall c :: c in names ==> c !in body
    ensures KeepKeys(names, body) == []
    decreases |names|
  {
    if names != [] {
      assert names[0] !in body;
      KeepKeysNone(names[1..], body);
    }
  }

  /** The position of a name in a list that holds it. */
  function IndexOf(names: seq<string>, c: string): (k: nat)
    requires c in names
    ensures k < |names| && names[k] == c
    ensures forall j :: 0 <= j < k ==> names[j] != c
  {
    if names[0] == c then 0 else 1 + IndexOf(names[1..], c)
  }

  /** The columns keep the registry's order: an earlier column is declared earlier. */
  lemma {:induction false} KeepKeysInOrder(names: seq<string>, body: map<string, string>, i: nat, j: nat)
    requires Distinct(names)
    requires i < j < |KeepKeys(names, body)|
    ensures IndexOf(names, KeepKeys(names, body)[i]) < IndexOf(names, KeepKeys(names, body)[j])
    decreases |names|
  {
    var cols := KeepKeys(names, body);
    var rest := KeepKeys(names[1..], body);
    var ci, cj := cols[i], cols[j];
    assert Distinct(names[1..]) by {
      forall a, b | 0 <= a < b < |names[1..]| ensures names[1..][a] != names[1..][b] {
        assert names[1..][a] == names[a + 1] && names[1..][b] == names[b + 1];
      }
    }
    if names[0] in body && i == 0 {
      assert ci == names[0];
      assert cj == rest[j - 1] && cj in names[1..];
      assert cj != names[0] by {
        var b := IndexOf(names[1..], cj);
        assert names[b + 1] == cj;
      }
      IndexOfTail(names, cj);
    } else {
      var shift := if names[0] in body then 1 else 0;
      var i', j' := i - shift, j - shift;
      assert ci == rest[i'] && cj == rest[j'];
      KeepKeysInOrder(names[1..], body, i', j');
      NotFirst(names, ci);
      NotFirst(names, cj);
      IndexOfTail(names, ci);
      IndexOfTail(names, cj);
    }
  }

  lemma NotFirst(names: seq<string>, c: string)
    requires Distinct(names) && names != [] && c in names[1..]
    ensures names[0] != c
  {
    var b := IndexOf(names[1..], c);
    assert names[b + 1] == c;
  }

  lemma IndexOfTail(names: seq<string>, c: string)
    requires names != [] && c in names[1..] && names[0] != c
    ensures IndexOf(names, c) == 1 + IndexOf(names[1..], c)
  {
  }

  /** The allow-listed part of a body (`array_intersect_key` on the values). */
  function Restrict(t: TableName, body: map<string, string>): (row: Row)
    ensures row.Keys <= body.Keys
    ensures forall c :: c in row <==> c in body && c in FieldNames(t)
    ensures forall c :: c in row ==> row[c] == body[c]
  {
    map c | c in body && c in FieldNames(t) :: body[c]
  }

  /** The row a column list and an aligned value list describe. */
  function RowOf(cols: seq<string>, values: seq<string>): Row
    requires |cols| == |values|
  {
    if cols == [] then map[] else RowOf(cols[1..], values[1..])[cols[0] := values[0]]
  }

  /** Values taken from the body column by column describe exactly the body's
      entries for those columns. */
  lemma {:induction false} RowOfAligned(cols: seq<string>, values: seq<string>, body: map<string, string>)
    requires |cols| == |values|
    requires forall k :: 0 <= k < |cols| ==> cols[k] in body && values[k] == body[cols[k]]
    ensures RowOf(cols, values) == map c | c in cols :: body[c]
    decreases |cols|
  {
    if cols != [] {
      RowOfAligned(cols[1..], values[1..], body);
      var r := RowOf(cols, values);
      var m := map c | c in cols :: body[c];
      assert forall c :: c in cols <==> c == cols[0] || c in cols[1..];
      assert r.Keys == m.Keys;
    }
  }

  /** Writing the selected columns with the body's values stores the allow-listed body. */
  lemma SelectedRow(t: TableName, body: map<string, string>, values: seq<string>)
    requires |values| == |SelectColumns(t, body)|
    requires forall k :: 0 <= k < |values| ==> values[k] == body[SelectColumns(t, body)[k]]
    ensures RowOf(SelectColumns(t, body), values) == Restrict(t, body)
  {
    var cols := SelectColumns(t, body);
    RowOfAligned(cols, values, body);
  }

  /** The allow-list looks at the body's keys only: two bodies with the same
      keys select the same columns, so the statement text does not depend on
      any value a client sends. */
  lemma {:induction false} KeepKeysOnlyKeys(names: seq<string>, b1: map<string, string>, b2: map<string, string>)
    requires b1.Keys == b2.Keys
    ensures KeepKeys(names, b1) == KeepKeys(names, b2)
    decreases |names|
  {
    if names != [] {
      KeepKeysOnlyKeys(names[1..], b1, b2);
    }
  }
}
