/**
 * The front of the service: the path after `api.php/` is split into
 * resource / id-or-verb / sub-parameter, and the request is dispatched to the
 * CRUD handler, the relation handler or an error response. Every request
 * ends in exactly one response.
 */
module Router {
  import opened Wrappers
  import opened Php
  import opened Schema
  import opened Http
  import opened Store
  import opened Resource
  import opened Enrollments

  const ApiPrefix: string := "api.php/"

  /** The text after the first "api.php/" of the path, or "" when it has none. */
  function AfterApiPrefix(path: string): (rest: string)
    ensures (forall j: nat :: !OccursAt(path, ApiPrefix, j)) ==> rest == ""
    ensures forall i: nat :: OccursAt(path, ApiPrefix, i) && (forall j: nat :: j < i ==> !OccursAt(path, ApiPrefix, j))
              ==> rest == path[i + |ApiPrefix|..]
  {
    match StrPos(path, ApiPrefix)
    case Some(i) => path[i + |ApiPrefix|..]
    case None => ""
  }

  /** `$risorsa`, `$id` and `$sottoRisorsa`; a missing segment is null. */
  datatype Segments = Segments(resource: string, id: Option<string>, sub: Option<string>)

  /** `explode('/', trim($uri, '/'))` and its first three parts; an empty
      resource (nothing but slashes after the prefix) carries no other part. */
  function ParsePath(path: string): (seg: Segments)
    ensures '/' !in seg.resource
    ensures seg.resource == "" ==> seg.id.None? && seg.sub.None?
    ensures seg.id.Some? ==> '/' !in seg.id.value
    ensures seg.sub.Some? ==> seg.id.Some? && '/' !in seg.sub.value
  {
    var parts := Explode(Trim(AfterApiPrefix(path), '/'), '/');
    Segments(parts[0],
             if |parts| > 1 then Some(parts[1]) else None,
             if |parts| > 2 then Some(parts[2]) else None)
  }

  /** Where a request goes: exactly one of the handlers, or a fixed error. */
  datatype Route =
    | Crud(table: TableName, id: Option<string>)
    | Relation(kind: RelationKind, id: Option<string>)
    | Refuse(response: Response)

  /** `switch ($risorsa)`. */
  function Dispatch(seg: Segments): (r: Route)
    ensures r.Crud? <==> seg.resource in {"studenti", "corsi"}
    ensures r.Crud? ==> Name(r.table) == seg.resource && r.id == seg.id
    ensures r.Relation? <==> seg.resource == "iscrizioni" && seg.id in {Some("studente"), Some("corso")}
    ensures r.Relation? ==> seg.id == Some(KindName(r.kind)) && r.id == seg.sub
    ensures r.Refuse? && seg.resource == "iscrizioni" ==> r.response == Fail(405, "Operazione non supportata per iscrizioni")
    ensures r.Refuse? && seg.resource != "iscrizioni" ==> r.response == Fail(404, "Risorsa non trovata")
  {
    match seg.resource
    case "studenti" => Crud(Studenti, seg.id)
    case "corsi" => Crud(Corsi, seg.id)
    case "iscrizioni" =>
      if seg.id == Some("studente") then Relation(ByStudent, seg.sub)
      else if seg.id == Some("corso") then Relation(ByCourse, seg.sub)
      else Refuse(Fail(405, "Operazione non supportata per iscrizioni"))
    case _ => Refuse(Fail(404, "Risorsa non trovata"))
  }

  function Other(t: TableName): TableName
  {
    match t
    case Studenti => Corsi
    case Corsi => Studenti
  }

  /** One request, start to finish: the CORS preflight exit, then routing. The
      table a CRUD request names changes as `ResourceSpec` says and the other
      table not at all; every other request changes nothing. */
  method Handle(db: Database, verb: string, path: string, body: map<string, string>, error: Option<string>)
    returns (resp: Response)
    requires db.Valid()
    modifies db.students, db.courses
    ensures db.Valid()
    ensures verb == "OPTIONS" ==> resp == Response(200, NoContent) && unchanged(db.students, db.courses)
    ensures verb != "OPTIONS" ==>
      match Dispatch(ParsePath(path))
      case Crud(t, id) =>
        && Outcome(resp, db.TableFor(t).State()) == ResourceSpec(t, verb, id, body, error, old(db.TableFor(t).State()))
        && unchanged(db.TableFor(Other(t)))
      case Relation(kind, id) =>
        resp == HandleEnrollments(verb, kind, id, db.enrollments) && unchanged(db.students, db.courses)
      case Refuse(r) =>
        resp == r && unchanged(db.students, db.courses)
  {
    if verb == "OPTIONS" {
      return Response(200, NoContent);
    }
    var route := Dispatch(ParsePath(path));
    match route
    case Crud(t, id) =>
      resp := HandleCrud(db, t, verb, id, body, error);
    case Relation(kind, id) =>
      resp := HandleEnrollments(verb, kind, id, db.enrollments);
    case Refuse(r) =>
      resp := r;
  }

  /** A CRUD request runs on the table its name selects; the other table is
      left alone. */
  method HandleCrud(db: Database, t: TableName, verb: string, id: Option<string>, body: map<string, string>,
                    error: Option<string>) returns (resp: Response)
    requires db.Valid()
    modifies db.students, db.courses
    ensures db.Valid()
    ensures Outcome(resp, db.TableFor(t).State()) == ResourceSpec(t, verb, id, body, error, old(db.TableFor(t).State()))
    ensures unchanged(db.TableFor(Other(t)))
  {
    resp := HandleResource(db.TableFor(t), t, verb, id, body, error);
  }

  // ---------------------------------------------------------------- properties

  /** A path without "api.php/" has an empty resource and is answered 404. */
  lemma WithoutApiPrefixNotFound(path: string)
    requires forall j: nat :: !OccursAt(path, ApiPrefix, j)
    ensures ParsePath(path).resource == ""
    ensures Dispatch(ParsePath(path)) == Refuse(Fail(404, "Risorsa non trovata"))
  {
    assert Dispatch(Segments("", None, None)) == Refuse(Fail(404, "Risorsa non trovata"));
    assert AfterApiPrefix(path) == "";
    assert Trim("", '/') == "";
    assert Explode("", '/') == [""];
  }

  /** Joined pieces start with the first piece and end with the last one. */
  lemma {:induction false} ImplodeEnds(parts: seq<string>, d: char)
    requires |parts| >= 1 && parts[0] != [] && parts[|parts| - 1] != []
    ensures var s := Implode(parts, d);
      s != [] && s[0] == parts[0][0] && s[|s| - 1] == parts[|parts| - 1][|parts[|parts| - 1]| - 1]
  {
    ImplodeLast(parts, d);
  }

  lemma {:induction false} ImplodeLast(parts: seq<string>, d: char)
    requires |parts| >= 1 && parts[|parts| - 1] != []
    ensures var s := Implode(parts, d);
      s != [] && s[|s| - 1] == parts[|parts| - 1][|parts[|parts| - 1]| - 1]
    decreases |parts|
  {
    if |parts| > 1 {
      ImplodeLast(parts[1..], d);
    }
  }

  /** What follows the first "api.php/" is taken, whatever precedes it. */
  lemma AfterApiPrefixOf(pre: string, rest: string)
    requires forall j: nat :: !OccursAt(pre, ApiPrefix, j)
    ensures AfterApiPrefix(pre + ApiPrefix + rest) == rest
  {
    assert forall k :: 0 < k < |ApiPrefix| ==> ApiPrefix[k] != ApiPrefix[0];
    StrPosAfter(pre, ApiPrefix, rest);
    var path := pre + ApiPrefix + rest;
    assert path[|pre| + |ApiPrefix|..] == rest;
  }

  /** The segments are the first three `/`-separated pieces of what follows the
      first "api.php/", whatever comes before it and however many slashes
      surround the pieces. */
  lemma ParsePathOf(pre: string, left: string, parts: seq<string>, right: string)
    requires forall j: nat :: !OccursAt(pre, ApiPrefix, j)
    requires forall k :: 0 <= k < |left| ==> left[k] == '/'
    requires forall k :: 0 <= k < |right| ==> right[k] == '/'
    requires |parts| >= 1 && parts[0] != [] && parts[|parts| - 1] != []
    requires forall i :: 0 <= i < |parts| ==> '/' !in parts[i]
    ensures ParsePath(pre + ApiPrefix + left + Implode(parts, '/') + right) ==
      Segments(parts[0],
               if |parts| > 1 then Some(parts[1]) else None,
               if |parts| > 2 then Some(parts[2]) else None)
  {
    var joined := Implode(parts, '/');
    var rest := left + joined + right;
    var path := pre + ApiPrefix + left + joined + right;
    Regroup(pre, ApiPrefix, left, joined, right);
    AfterApiPrefixOf(pre, rest);
    JoinedEnds(parts);
    TrimPadding(left, joined, right, '/');
    ExplodeImplode(parts, '/');
    ParsePathFrom(path, parts);
  }

  /** Pieces free of '/' and not empty at either end join into a string that
      neither starts nor ends with '/'. */
  lemma JoinedEnds(parts: seq<string>)
    requires |parts| >= 1 && parts[0] != [] && parts[|parts| - 1] != []
    requires forall i :: 0 <= i < |parts| ==> '/' !in parts[i]
    ensures var joined := Implode(parts, '/');
      joined != [] && joined[0] != '/' && joined[|joined| - 1] != '/'
  {
    ImplodeEnds(parts, '/');
    assert parts[0][0] in parts[0];
    var last := parts[|parts| - 1];
    assert last[|last| - 1] in last;
  }

  lemma Regroup(a: string, b: string, c: string, d: string, e: string)
    ensures a + b + c + d + e == a + b + (c + d + e)
  {
  }

  lemma ParsePathFrom(path: string, parts: seq<string>)
    requires Explode(Trim(AfterApiPrefix(path), '/'), '/') == parts
    ensures ParsePath(path) ==
      Segments(parts[0],
               if |parts| > 1 then Some(parts[1]) else None,
               if |parts| > 2 then Some(parts[2]) else None)
  {
  }

  lemma ImplodePair(a: string, b: string, d: char)
    ensures Implode([a, b], d) == a + [d] + b
  {
    assert [a, b][1..] == [b];
  }

  lemma ImplodeTriple(a: string, b: string, c: string, d: char)
    ensures Implode([a, b, c], d) == a + [d] + b + [d] + c
  {
    assert [a, b, c][1..] == [b, c];
    ImplodePair(b, c, d);
  }

  /** A path ending in two `/`-separated pieces after the prefix. */
  lemma PairPath(pre: string, a: string, b: string)
    requires forall j: nat :: !OccursAt(pre, ApiPrefix, j)
    requires a != [] && b != [] && '/' !in a && '/' !in b
    ensures ParsePath(pre + ApiPrefix + a + "/" + b) == Segments(a, Some(b), None)
  {
    ParsePathOf(pre, "", [a, b], "");
    PairPathText(pre, a, b);
  }

  // The path text and the joined pieces are equated in lemmas of their own, so
  // that `PairPath` and `TriplePath` need no reasoning about concatenation.

  lemma PairPathText(pre: string, a: string, b: string)
    ensures pre + ApiPrefix + a + "/" + b == pre + ApiPrefix + "" + Implode([a, b], '/') + ""
  {
    ImplodePair(a, b, '/');
  }

  /** A path ending in three `/`-separated pieces after the prefix. */
  lemma TriplePath(pre: string, a: string, b: string, c: string)
    requires forall j: nat :: !OccursAt(pre, ApiPrefix, j)
    requires a != [] && c != [] && '/' !in a && '/' !in b && '/' !in c
    ensures ParsePath(pre + ApiPrefix + a + "/" + b + "/" + c) == Segments(a, Some(b), Some(c))
  {
    ParsePathOf(pre, "", [a, b, c], "");
    TriplePathText(pre, a, b, c);
  }

  lemma TriplePathText(pre: string, a: string, b: string, c: string)
    ensures pre + ApiPrefix + a + "/" + b + "/" + c == pre + ApiPrefix + "" + Implode([a, b, c], '/') + ""
  {
    ImplodeTriple(a, b, c, '/');
  }

  lemma DecimalHasNoSlash(n: nat)
    ensures DecimalString(n) != [] && '/' !in DecimalString(n)
  {
    var s := DecimalString(n);
    forall k | 0 <= k < |s| ensures s[k] != '/' {
      assert IsDigit(s[k]);
    }
  }

  /** `…/api.php/<table>/<n>` reaches that table's handler with id n. */
  lemma CrudPath(pre: string, t: TableName, n: nat)
    requires forall j: nat :: !OccursAt(pre, ApiPrefix, j)
    ensures Dispatch(ParsePath(pre + ApiPrefix + Name(t) + "/" + DecimalString(n))) == Crud(t, Some(DecimalString(n)))
  {
    DecimalHasNoSlash(n);
    assert '/' !in Name(t) && Name(t) != [];
    PairPath(pre, Name(t), DecimalString(n));
  }

  /** `…/api.php/<table>`, with or without trailing slashes, reaches that
      table's handler with no id. */
  lemma CollectionPath(pre: string, t: TableName, right: string)
    requires forall j: nat :: !OccursAt(pre, ApiPrefix, j)
    requires forall k :: 0 <= k < |right| ==> right[k] == '/'
    ensures Dispatch(ParsePath(pre + ApiPrefix + Name(t) + right)) == Crud(t, None)
  {
    var name := Name(t);
    assert Dispatch(Segments(name, None, None)) == Crud(t, None);
    assert name != [] && '/' !in name;
    assert Implode([name], '/') == name;
    assert pre + ApiPrefix + "" + name + right == pre + ApiPrefix + name + right;
    ParsePathOf(pre, "", [name], right);
  }

  /** A GET of `…/api.php/<table>/<n>` answers with row n when the table holds
      it and 404 otherwise. */
  lemma GetRowByPath(pre: string, t: TableName, n: nat, s: TableState)
    requires forall j: nat :: !OccursAt(pre, ApiPrefix, j)
    requires n != 0
    ensures var route := Dispatch(ParsePath(pre + ApiPrefix + Name(t) + "/" + DecimalString(n)));
      && route == Crud(t, Some(DecimalString(n)))
      && GetSpec(t, route.id, s) == if n in s.rows then Response(200, Record(n, s.rows[n]))
                                    else Fail(404, NotFoundMessage(t))
  {
    CrudPath(pre, t, n);
    IntValOfDecimal(n);
    TruthyDecimal(n);
  }

  /** `…/api.php/iscrizioni/<kind>/<n>` reaches the relation handler with id n. */
  lemma EnrollmentPath(pre: string, kind: RelationKind, n: nat)
    requires forall j: nat :: !OccursAt(pre, ApiPrefix, j)
    ensures Dispatch(ParsePath(pre + ApiPrefix + "iscrizioni" + "/" + KindName(kind) + "/" + DecimalString(n)))
            == Relation(kind, Some(DecimalString(n)))
  {
    var seg := Segments("iscrizioni", Some(KindName(kind)), Some(DecimalString(n)));
    assert Dispatch(seg) == Relation(kind, Some(DecimalString(n)));
    DecimalHasNoSlash(n);
    assert '/' !in "iscrizioni" && '/' !in KindName(kind);
    TriplePath(pre, "iscrizioni", KindName(kind), DecimalString(n));
  }

  /** `…/api.php/iscrizioni/<x>` for any other x is answered 405. */
  lemma OtherEnrollmentPath(pre: string, other: string)
    requires forall j: nat :: !OccursAt(pre, ApiPrefix, j)
    requires other != [] && '/' !in other && other != "studente" && other != "corso"
    ensures Dispatch(ParsePath(pre + ApiPrefix + "iscrizioni" + "/" + other))
            == Refuse(Fail(405, "Operazione non supportata per iscrizioni"))
  {
    var seg := Segments("iscrizioni", Some(other), None);
    assert Dispatch(seg) == Refuse(Fail(405, "Operazione non supportata per iscrizioni"));
    assert '/' !in "iscrizioni";
    PairPath(pre, "iscrizioni", other);
  }

  /** `…/api.php/iscrizioni`, with or without trailing slashes, names no
      relation kind and is answered 405. */
  lemma EnrollmentRootPath(pre: string, right: string)
    requires forall j: nat :: !OccursAt(pre, ApiPrefix, j)
    requires forall k :: 0 <= k < |right| ==> right[k] == '/'
    ensures Dispatch(ParsePath(pre + ApiPrefix + "iscrizioni" + right))
            == Refuse(Fail(405, "Operazione non supportata per iscrizioni"))
  {
    var name := "iscrizioni";
    assert Dispatch(Segments(name, None, None)) == Refuse(Fail(405, "Operazione non supportata per iscrizioni"));
    assert name != [] && '/' !in name;
    assert Implode([name], '/') == name;
    assert pre + ApiPrefix + "" + name + right == pre + ApiPrefix + name + right;
    ParsePathOf(pre, "", [name], right);
  }
}
