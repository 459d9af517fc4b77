/**
 * The generic CRUD handler `gestisciRisorsa` for `studenti` and `corsi`.
 *
 * `GetSpec`, `PostSpec`, `PutSpec`, `DeleteSpec` and `ResourceSpec` state, as
 * functions of the request and the table's abstract value, which response a
 * request gets and what the table holds afterwards. The `Handle…` methods do
 * the work step by step against a `Table` object, as the PHP function does
 * against the database, and are proved to agree with those functions. The
 * lemmas at the end state what the service promises about them.
 */
module Resource {
  import opened Wrappers
  import opened Php
  import opened Schema
  import opened Http
  import opened Queries
  import opened Store

  /** A response together with the table's value after the request. */
  datatype Outcome = Outcome(response: Response, after: TableState)

  /** The position of the first required field the body leaves empty (`empty($dati[$campo])`). */
  function FirstMissing(required: seq<string>, body: map<string, string>): (r: Option<nat>)
    ensures r.Some? ==> r.value < |required| && EmptyAt(body, required[r.value])
    ensures r.Some? ==> forall j :: 0 <= j < r.value ==> !EmptyAt(body, required[j])
    ensures r.None? ==> forall j :: 0 <= j < |required| ==> !EmptyAt(body, required[j])
  {
    if required == [] then None
    else if EmptyAt(body, required[0]) then Some(0)
    else match FirstMissing(required[1..], body)
      case None => None
      case Some(k) => Some(k + 1)
  }

  // ---------------------------------------------------------------- specification

  /** GET: every row for a falsy id, otherwise the row the id converts to. */
  function GetSpec(t: TableName, id: Option<string>, s: TableState): (r: Response)
    ensures r.status in {200, 404}
    ensures r.status == 404 <==> Truthy(id) && IntVal(id.value) !in s.rows
    ensures r.status == 404 ==> r == Fail(404, NotFoundMessage(t))
    ensures Truthy(id) && IntVal(id.value) in s.rows ==>
              r == Response(200, Record(IntVal(id.value), s.rows[IntVal(id.value)]))
    ensures r.body.Record? ==> Truthy(id) && r.body.id == IntVal(id.value) && r.body.id in s.rows
                               && r.body.row == s.rows[r.body.id]
    ensures r.body.Rows? <==> !Truthy(id)
    ensures r.body.Rows? ==> r.body.table == s.rows
  {
    if !Truthy(id) then Response(200, Rows(s.rows))
    else
      var key := IntVal(id.value);
      if key in s.rows then Response(200, Record(key, s.rows[key]))
      else Fail(404, NotFoundMessage(t))
  }

  /** POST: required fields first, then the insert of the allow-listed body. */
  function PostSpec(t: TableName, body: map<string, string>, error: Option<string>, s: TableState): (o: Outcome)
    ensures o.response.status in {201, 400, 500}
    ensures o.response.status == 400 <==> FirstMissing(Required(t), body).Some?
    ensures FirstMissing(Required(t), body).Some? ==>
              o.response == Fail(400, "Campo obbligatorio mancante: " + Required(t)[FirstMissing(Required(t), body).value])
    ensures FirstMissing(Required(t), body).None? && error.Some? ==>
              o.response == Fail(500, "Errore inserimento: " + error.value)
    ensures o.response.status == 201 <==> FirstMissing(Required(t), body).None? && error.None?
    ensures o.response.status != 201 ==> o.after == s
    ensures o.response.status == 201 ==>
      && o.after.rows.Keys == s.rows.Keys + {s.nextId} && o.after.nextId == s.nextId + 1
      && o.response == Response(201, Record(s.nextId, o.after.rows[s.nextId]))
      && (forall k :: k in s.rows && k != s.nextId ==> o.after.rows[k] == s.rows[k])
  {
    match FirstMissing(Required(t), body)
    case Some(k) => Outcome(Fail(400, "Campo obbligatorio mancante: " + Required(t)[k]), s)
    case None =>
      if error.Some? then Outcome(Fail(500, "Errore inserimento: " + error.value), s)
      else
        var row := Restrict(t, body);
        Outcome(Response(201, Record(s.nextId, row)), TableState(s.rows[s.nextId := row], s.nextId + 1))
  }

  /** The check on line 200 as written: only a body without any key is refused. */
  predicate NothingToUpdateAsWritten(body: map<string, string>): (b: bool)
    ensures b <==> body == map[]
  {
    |body| == 0
  }

  /** The check PUT needs: a body that names no registered column is refused,
      since the UPDATE built from it would have no SET clause. */
  predicate NothingToUpdate(t: TableName, body: map<string, string>): (b: bool)
    ensures b <==> forall c :: c in body ==> c !in FieldNames(t)
  {
    var cols := SelectColumns(t, body);
    assert cols != [] ==> cols[0] in cols;
    cols == []
  }

  /** PUT: id, then an empty body, then existence, all before the write. A
      body that passes those checks but names no registered column is refused
      too, where the code as written would build an UPDATE without a SET
      clause. */
  function PutSpec(t: TableName, id: Option<string>, body: map<string, string>, error: Option<string>, s: TableState): (o: Outcome)
    ensures o.response.status in {200, 400, 404, 500}
    ensures o.response.status != 200 ==> o.after == s
    ensures !Truthy(id) ==> o.response == Fail(400, "ID mancante")
    ensures Truthy(id) && |body| == 0 ==> o.response == Fail(400, "Nessun dato da aggiornare")
    ensures o.response.status == 404 ==> o.response == Fail(404, NotFoundMessage(t))
    ensures Truthy(id) && |body| != 0 && IntVal(id.value) in s.rows && NothingToUpdate(t, body) ==>
              o.response == Fail(400, "Nessun dato da aggiornare")
    ensures Truthy(id) && |body| != 0 && IntVal(id.value) in s.rows && !NothingToUpdate(t, body) && error.Some? ==>
              o.response == Fail(500, "Errore aggiornamento: " + error.value)
    ensures o.response.status == 404 <==> Truthy(id) && |body| != 0 && IntVal(id.value) !in s.rows
    ensures o.response.status == 200 <==>
      Truthy(id) && |body| != 0 && IntVal(id.value) in s.rows && !NothingToUpdate(t, body) && error.None?
    ensures o.response.status == 200 ==>
      && o.after.rows.Keys == s.rows.Keys && o.after.nextId == s.nextId
      && o.response == Response(200, Record(IntVal(id.value), o.after.rows[IntVal(id.value)]))
      && (forall k :: k in s.rows && k != IntVal(id.value) ==> o.after.rows[k] == s.rows[k])
  {
    if !Truthy(id) then Outcome(Fail(400, "ID mancante"), s)
    else if NothingToUpdateAsWritten(body) then Outcome(Fail(400, "Nessun dato da aggiornare"), s)
    else
      var key := IntVal(id.value);
      if key !in s.rows then Outcome(Fail(404, NotFoundMessage(t)), s)
      else if NothingToUpdate(t, body) then Outcome(Fail(400, "Nessun dato da aggiornare"), s)
      else if error.Some? then Outcome(Fail(500, "Errore aggiornamento: " + error.value), s)
      else
        var row := s.rows[key] + Restrict(t, body);
        Outcome(Response(200, Record(key, row)), TableState(s.rows[key := row], s.nextId))
  }

  /** DELETE: only an `affected_rows` of exactly 0 is reported as not found;
      a rejected statement reports -1 and so answers 204. */
  function DeleteSpec(t: TableName, id: Option<string>, error: Option<string>, s: TableState): (o: Outcome)
    ensures o.response.status in {204, 400, 404}
    ensures o.response.status == 400 <==> !Truthy(id)
    ensures !Truthy(id) ==> o.response == Fail(400, "ID mancante")
    ensures o.response.status == 404 ==> o.response == Fail(404, NotFoundMessage(t))
    ensures o.response.status == 204 ==>
      && Truthy(id) && o.response.body == NoContent
      && (error.None? ==> o.after == TableState(s.rows - {IntVal(id.value)}, s.nextId))
    ensures o.response.status == 404 <==> Truthy(id) && error.None? && IntVal(id.value) !in s.rows
    ensures o.response.status != 204 ==> o.after == s
    ensures o.after.nextId == s.nextId && o.after.rows.Keys <= s.rows.Keys
    ensures forall k :: k in o.after.rows ==> o.after.rows[k] == s.rows[k]
    ensures o.after != s ==> Truthy(id) && o.after.rows.Keys == s.rows.Keys - {IntVal(id.value)}
  {
    if !Truthy(id) then Outcome(Fail(400, "ID mancante"), s)
    else
      var key := IntVal(id.value);
      if error.Some? then Outcome(Response(204, NoContent), s)
      else if key !in s.rows then Outcome(Fail(404, NotFoundMessage(t)), s)
      else Outcome(Response(204, NoContent), TableState(s.rows - {key}, s.nextId))
  }

  /** `switch ($metodo)`. */
  function ResourceSpec(t: TableName, verb: string, id: Option<string>, body: map<string, string>,
                        error: Option<string>, s: TableState): (o: Outcome)
    ensures o.response.status in {200, 201, 204, 400, 404, 405, 500}
    ensures o.response.status == 405 <==> verb !in {"GET", "POST", "PUT", "DELETE"}
    ensures o.response.status == 405 ==> o.response == Fail(405, "Metodo non supportato")
    ensures o.response.status >= 400 ==> o.after == s
    ensures verb !in {"POST", "PUT", "DELETE"} ==> o.after == s
  {
    if verb == "GET" then Outcome(GetSpec(t, id, s), s)
    else if verb == "POST" then PostSpec(t, body, error, s)
    else if verb == "PUT" then PutSpec(t, id, body, error, s)
    else if verb == "DELETE" then DeleteSpec(t, id, error, s)
    else Outcome(Fail(405, "Metodo non supportato"), s)
  }

  // ---------------------------------------------------------------- handlers

  method HandleGet(tbl: Table, t: TableName, id: Option<string>) returns (resp: Response)
    ensures resp == GetSpec(t, id, tbl.State())
  {
    if Truthy(id) {
      var key := IntVal(id.value);
      var found := tbl.Find(key);
      if found.None? {
        return Fail(404, NotFoundMessage(t));
      }
      return Response(200, Record(key, found.value));
    }
    resp := Response(200, Rows(tbl.rows));
  }

  /** The `foreach` over the required fields, which stops at the first one
      the body leaves empty. */
  method CheckRequired(required: seq<string>, body: map<string, string>) returns (missing: Option<nat>)
    ensures missing == FirstMissing(required, body)
  {
    for i := 0 to |required|
      invariant forall j :: 0 <= j < i ==> !EmptyAt(body, required[j])
    {
      if EmptyAt(body, required[i]) {
        return Some(i);
      }
    }
    return None;
  }

  method HandlePost(tbl: Table, t: TableName, body: map<string, string>, error: Option<string>) returns (resp: Response)
    requires tbl.Valid()
    modifies tbl
    ensures tbl.Valid()
    ensures Outcome(resp, tbl.State()) == PostSpec(t, body, error, old(tbl.State()))
  {
    var missing := CheckRequired(Required(t), body);
    if missing.Some? {
      return Fail(400, "Campo obbligatorio mancante: " + Required(t)[missing.value]);
    }
    var q := BuildInsert(t, body);
    SelectedRow(t, body, q.values);
    var ok, newId := tbl.ExecuteInsert(q, error);
    if !ok {
      return Fail(500, "Errore inserimento: " + error.value);
    }
    var row := tbl.Find(newId);
    assert row.value == Restrict(t, body);
    resp := Response(201, Record(newId, row.value));
  }

  method HandlePut(tbl: Table, t: TableName, id: Option<string>, body: map<string, string>, error: Option<string>)
    returns (resp: Response)
    requires tbl.Valid()
    modifies tbl
    ensures tbl.Valid()
    ensures Outcome(resp, tbl.State()) == PutSpec(t, id, body, error, old(tbl.State()))
  {
    if !Truthy(id) {
      return Fail(400, "ID mancante");
    }
    if |body| == 0 {
      return Fail(400, "Nessun dato da aggiornare");
    }
    var key := IntVal(id.value);
    var existing := tbl.Find(key);
    if existing.None? {
      return Fail(404, NotFoundMessage(t));
    }
    if NothingToUpdate(t, body) {
      return Fail(400, "Nessun dato da aggiornare");
    }
    var q := BuildUpdate(t, body, id.value);
    var ok := tbl.ExecuteUpdate(q, error);
    if !ok {
      return Fail(500, "Errore aggiornamento: " + error.value);
    }
    SelectedRow(t, body, q.values[..|q.columns|]);
    var row := tbl.Find(key);
    resp := Response(200, Record(key, row.value));
  }

  method HandleDelete(tbl: Table, t: TableName, id: Option<string>, error: Option<string>) returns (resp: Response)
    requires tbl.Valid()
    modifies tbl
    ensures tbl.Valid()
    ensures Outcome(resp, tbl.State()) == DeleteSpec(t, id, error, old(tbl.State()))
  {
    if !Truthy(id) {
      return Fail(400, "ID mancante");
    }
    var affected := tbl.ExecuteDelete(IntVal(id.value), error);
    if affected == 0 {
      return Fail(404, NotFoundMessage(t));
    }
    resp := Response(204, NoContent);
  }

  /** `gestisciRisorsa($metodo, $id, $tabella)`. */
  method HandleResource(tbl: Table, t: TableName, verb: string, id: Option<string>, body: map<string, string>,
                        error: Option<string>) returns (resp: Response)
    requires tbl.Valid()
    modifies tbl
    ensures tbl.Valid()
    ensures Outcome(resp, tbl.State()) == ResourceSpec(t, verb, id, body, error, old(tbl.State()))
  {
    match verb
    case "GET" => resp := HandleGet(tbl, t, id);
    case "POST" => resp := HandlePost(tbl, t, body, error);
    case "PUT" => resp := HandlePut(tbl, t, id, body, error);
    case "DELETE" => resp := HandleDelete(tbl, t, id, error);
    case _ => resp := Fail(405, "Metodo non supportato");
  }

  // ---------------------------------------------------------------- properties

  /** A POST that succeeds stores exactly the registered fields of the body
      under the next id, every required field among them, and a GET of that
      id's decimal text returns the same row. */
  lemma PostThenGet(t: TableName, body: map<string, string>, s: TableState)
    requires ValidState(s)
    requires PostSpec(t, body, None, s).response.status == 201
    ensures var o := PostSpec(t, body, None, s);
      && s.nextId !in s.rows
      && o.after.rows[s.nextId] == Restrict(t, body)
      && (forall f :: f in Required(t) ==> f in o.after.rows[s.nextId] && o.after.rows[s.nextId][f] == body[f])
      && GetSpec(t, Some(DecimalString(s.nextId)), o.after) == Response(200, Record(s.nextId, Restrict(t, body)))
  {
    RegistryWellFormed(t);
    var missing := FirstMissing(Required(t), body);
    assert missing.None?;
    forall f | f in Required(t) ensures f in body {
      var j :| 0 <= j < |Required(t)| && Required(t)[j] == f;
      assert !EmptyAt(body, Required(t)[j]);
    }
    IntValOfDecimal(s.nextId);
    TruthyDecimal(s.nextId);
  }

  /** The first required field, in registry order, that is missing or empty
      decides the 400 message, and nothing is written. */
  lemma PostRejectsFirstMissing(t: TableName, body: map<string, string>, error: Option<string>, s: TableState, i: nat)
    requires i < |Required(t)| && EmptyAt(body, Required(t)[i])
    requires forall j :: 0 <= j < i ==> !EmptyAt(body, Required(t)[j])
    ensures PostSpec(t, body, error, s) == Outcome(Fail(400, "Campo obbligatorio mancante: " + Required(t)[i]), s)
  {
  }

  /** A successful PUT rewrites only the registered fields the body names, in
      the one row the id selects; every other field and row is unchanged, and
      the response is the row a GET now returns. */
  lemma PutUpdatesOnlyGivenFields(t: TableName, id: Option<string>, body: map<string, string>, s: TableState)
    requires PutSpec(t, id, body, None, s).response.status == 200
    ensures Truthy(id) && IntVal(id.value) in s.rows
    ensures var key := IntVal(id.value);
      var o := PutSpec(t, id, body, None, s);
      var row := o.after.rows[key];
      && o.after.rows.Keys == s.rows.Keys && o.after.nextId == s.nextId
      && (forall k :: k in s.rows && k != key ==> o.after.rows[k] == s.rows[k])
      && (forall c :: c in row <==> c in s.rows[key] || (c in body && c in FieldNames(t)))
      && (forall c :: c in body && c in FieldNames(t) ==> row[c] == body[c])
      && (forall c :: c in s.rows[key] && !(c in body && c in FieldNames(t)) ==> row[c] == s.rows[key][c])
      && o.response == GetSpec(t, id, o.after)
  {
  }

  /** With the corrected check, every PUT that succeeds writes at least one
      registered column of the body (its UPDATE has a SET clause). */
  lemma PutWritesSomeColumn(t: TableName, id: Option<string>, body: map<string, string>, error: Option<string>, s: TableState)
    requires PutSpec(t, id, body, error, s).response.status == 200
    ensures |SelectColumns(t, body)| >= 1
    ensures exists c :: c in body && c in FieldNames(t)
              && PutSpec(t, id, body, error, s).after.rows[IntVal(id.value)][c] == body[c]
  {
    var c := SelectColumns(t, body)[0];
    assert c in SelectColumns(t, body);
  }

  /** The corrected check refuses every body the written one refuses. */
  lemma NothingToUpdateWidens(t: TableName, body: map<string, string>)
    ensures NothingToUpdateAsWritten(body) ==> NothingToUpdate(t, body)
  {
    if |body| == 0 {
      assert body == map[];
      KeepKeysNone(FieldNames(t), body);
    }
  }

  /** The check as written lets through a body that names only an unknown
      column. For a stored row the UPDATE built from it has no SET clause at
      all, which the store refuses as a syntax error; the corrected check
      answers 400 there. For an id that is not stored, the answer stays the
      code's 404. */
  lemma UnknownOnlyBodyPassesAsWritten(s: TableState)
    ensures var body := map["eta" := "20"];
      && !NothingToUpdateAsWritten(body)
      && SelectColumns(Studenti, body) == []
      && PutSpec(Studenti, Some("1"), body, None, s).response ==
           if 1 in s.rows then Fail(400, "Nessun dato da aggiornare") else Fail(404, NotFoundMessage(Studenti))
  {
    var body := map["eta" := "20"];
    assert |body| == 1;
    assert IntVal("1") == 1;
    assert FieldNames(Studenti) == ["nome", "cognome", "email", "data_nascita"];
    KeepKeysNone(FieldNames(Studenti), body);
  }

  /** A DELETE that succeeds removes exactly that row; a GET or a second
      DELETE of the same id then answers 404. */
  lemma DeleteThenGet(t: TableName, id: Option<string>, s: TableState)
    requires DeleteSpec(t, id, None, s).response.status == 204
    ensures Truthy(id) && IntVal(id.value) in s.rows
    ensures var o := DeleteSpec(t, id, None, s);
      && o.after == TableState(s.rows - {IntVal(id.value)}, s.nextId)
      && GetSpec(t, id, o.after) == Fail(404, NotFoundMessage(t))
      && DeleteSpec(t, id, None, o.after) == Outcome(Fail(404, NotFoundMessage(t)), o.after)
  {
  }

  /** A DELETE the store rejects still answers 204, and the row stays. */
  lemma RejectedDeleteAnswers204(t: TableName, id: Option<string>, message: string, s: TableState)
    requires Truthy(id)
    ensures DeleteSpec(t, id, Some(message), s) == Outcome(Response(204, NoContent), s)
  {
  }

  /** Every request keeps the table's id invariant, and no request changes the
      value of a stored row other than the one a PUT names. */
  lemma ResourceKeepsInvariant(t: TableName, verb: string, id: Option<string>, body: map<string, string>,
                               error: Option<string>, s: TableState)
    requires ValidState(s)
    ensures var o := ResourceSpec(t, verb, id, body, error, s);
      && ValidState(o.after)
      && (forall k :: k in s.rows && k in o.after.rows && !(verb == "PUT" && Truthy(id) && k == IntVal(id.value))
            ==> o.after.rows[k] == s.rows[k])
  {
    var o := ResourceSpec(t, verb, id, body, error, s);
    if verb == "GET" {
      assert o.after == s;
    } else if verb == "POST" {
      assert o == PostSpec(t, body, error, s);
      PostKeepsInvariant(t, body, error, s);
    } else if verb == "PUT" {
      assert o == PutSpec(t, id, body, error, s);
      PutKeepsInvariant(t, id, body, error, s);
    } else if verb == "DELETE" {
      assert o == DeleteSpec(t, id, error, s);
      DeleteKeepsInvariant(t, id, error, s);
    } else {
      assert o == Outcome(Fail(405, "Metodo non supportato"), s);
    }
  }

  /** A DELETE keeps the id invariant. */
  lemma DeleteKeepsInvariant(t: TableName, id: Option<string>, error: Option<string>, s: TableState)
    requires ValidState(s)
    ensures var o := DeleteSpec(t, id, error, s);
      && ValidState(o.after)
  {
  }

  /** A POST that stores a row stores it under the old next id and moves the
      next id past it. */
  lemma PostKeepsInvariant(t: TableName, body: map<string, string>, error: Option<string>, s: TableState)
    requires ValidState(s)
    ensures var o := PostSpec(t, body, error, s);
      && ValidState(o.after)
      && (forall k :: k in s.rows ==> k in o.after.rows && o.after.rows[k] == s.rows[k])
  {
    var o := PostSpec(t, body, error, s);
    if o.after != s {
      assert o.after.rows == s.rows[s.nextId := Restrict(t, body)];
      assert s.nextId !in s.rows;
    }
  }

  /** A PUT keeps the id invariant. */
  lemma PutKeepsInvariant(t: TableName, id: Option<string>, body: map<string, string>, error: Option<string>, s: TableState)
    requires ValidState(s)
    ensures var o := PutSpec(t, id, body, error, s);
      && ValidState(o.after)
  {
  }
}
