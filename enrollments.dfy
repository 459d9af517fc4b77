/**
 * The read-only relation handler `gestisciIscrizioni`: the enrollments of one
 * student, or of one course. The JOIN with the other table is taken as done:
 * each enrollment already carries the joined columns.
 */
module Enrollments {
  import opened Wrappers
  import opened Php
  import opened Schema
  import opened Http

  /** The second path segment the router accepts for `iscrizioni`. */
  datatype RelationKind = ByStudent | ByCourse

  function KindName(kind: RelationKind): string
  {
    match kind
    case ByStudent => "studente"
    case ByCourse => "corso"
  }

  /** What `bind_param("i", $id)` sends for the id: SQL NULL for a missing
      segment, otherwise the `(int)` conversion of the text. */
  function BoundId(id: Option<string>): (key: Option<int>)
    ensures key.None? <==> id.None?
    ensures id.Some? && AllDigits(id.value) ==> key == Some(DecimalValue(id.value))
  {
    match id
    case None => None
    case Some(s) => Some(IntVal(s))
  }

  /** `WHERE i.studente_id = ?` or `WHERE i.corso_id = ?`; NULL matches no row. */
  predicate Matches(kind: RelationKind, key: Option<int>, e: Enrollment): (b: bool)
    ensures key.None? ==> !b
    ensures b <==> key == Some(if kind == ByStudent then e.studentId else e.courseId)
  {
    key.Some? && match kind
      case ByStudent => e.studentId == key.value
      case ByCourse => e.courseId == key.value
  }

  /** The enrollments the query returns. They are listed in store order here,
      which is a choice of the model: the query has no ORDER BY. */
  function Select(kind: RelationKind, key: Option<int>, es: seq<Enrollment>): (r: seq<Enrollment>)
    ensures |r| <= |es|
    ensures forall e :: e in r <==> e in es && Matches(kind, key, e)
  {
    if es == [] then []
    else
      var rest := Select(kind, key, es[1..]);
      if Matches(kind, key, es[0]) then [es[0]] + rest else rest
  }

  /** Every matching enrollment is returned as often as the store holds it,
      and no other. */
  lemma {:induction false} SelectKeepsEveryMatch(kind: RelationKind, key: Option<int>, es: seq<Enrollment>)
    ensures forall e :: multiset(Select(kind, key, es))[e] == if Matches(kind, key, e) then multiset(es)[e] else 0
    decreases |es|
  {
    if es != [] {
      SelectKeepsEveryMatch(kind, key, es[1..]);
      assert es == [es[0]] + es[1..];
    }
  }

  /** `gestisciIscrizioni($metodo, $tipo, $id)`: only GET is served; it answers
      200 with the matching enrollments, an empty list when none match, and
      never 404. */
  function HandleEnrollments(verb: string, kind: RelationKind, id: Option<string>, es: seq<Enrollment>): (r: Response)
    ensures verb != "GET" ==> r == Fail(405, "Solo GET è supportato per iscrizioni")
    ensures verb == "GET" ==> r.status == 200 && r.body.EnrollmentList?
    ensures verb == "GET" ==> forall e :: e in r.body.items <==> e in es && Matches(kind, BoundId(id), e)
    ensures verb == "GET" && (forall e :: e in es ==> !Matches(kind, BoundId(id), e)) ==> r == Response(200, EnrollmentList([]))
  {
    if verb != "GET" then Fail(405, "Solo GET è supportato per iscrizioni")
    else
      var items := Select(kind, BoundId(id), es);
      assert items != [] ==> items[0] in items;
      Response(200, EnrollmentList(items))
  }

  /** A request for a student's enrollments returns exactly the enrollments
      whose student is the id, each as often as stored; a missing id returns none. */
  lemma StudentEnrollments(id: Option<string>, es: seq<Enrollment>)
    ensures var r := HandleEnrollments("GET", ByStudent, id, es);
      && (id.Some? ==> forall e :: multiset(r.body.items)[e] ==
                         if e.studentId == IntVal(id.value) then multiset(es)[e] else 0)
      && (id.None? ==> r == Response(200, EnrollmentList([])))
  {
    SelectKeepsEveryMatch(ByStudent, BoundId(id), es);
  }

  /** The same for a course's enrollments. */
  lemma CourseEnrollments(id: Option<string>, es: seq<Enrollment>)
    ensures var r := HandleEnrollments("GET", ByCourse, id, es);
      && (id.Some? ==> forall e :: multiset(r.body.items)[e] ==
                         if e.courseId == IntVal(id.value) then multiset(es)[e] else 0)
      && (id.None? ==> r == Response(200, EnrollmentList([])))
  {
    SelectKeepsEveryMatch(ByCourse, BoundId(id), es);
  }
}
