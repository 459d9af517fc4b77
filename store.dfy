/**
 * The relational store, abstracted: each CRUD table is an object holding its
 * rows by id and the next auto-increment id; enrollments are a fixed list the
 * service only reads. A statement whose execution the store rejects is
 * modelled by an error message passed in (`$stmt->error`); such a statement
 * changes nothing.
 */
module Store {
  import opened Wrappers
  import opened Php
  import opened Schema
  import opened Queries

  /** The abstract value of a table. */
  datatype TableState = TableState(rows: map<int, Row>, nextId: int)

  /** Ids are assigned from 1 upward and every stored id is below the next one. */
  ghost predicate ValidState(s: TableState)
  {
    1 <= s.nextId && forall k :: k in s.rows ==> 1 <= k < s.nextId
  }

  class Table {
    var rows: map<int, Row>
    var nextId: int

    function State(): TableState
      reads this
    {
      TableState(rows, nextId)
    }

    ghost predicate Valid()
      reads this
    {
      ValidState(State())
    }

    constructor ()
      ensures Valid() && State() == TableState(map[], 1)
    {
      rows := map[];
      nextId := 1;
    }

    /** `SELECT * FROM table WHERE id = ?`. */
    method Find(key: int) returns (r: Option<Row>)
      ensures r.Some? <==> key in rows
      ensures r.Some? ==> r.value == rows[key]
    {
      r := if key in rows then Some(rows[key]) else None;
    }

    /** Executes an INSERT: on success the row the query describes is stored
        under a fresh id, which is returned (`insert_id`). */
    method ExecuteInsert(q: InsertQuery, error: Option<string>) returns (ok: bool, newId: int)
      requires Valid()
      requires |q.values| == |q.columns|
      modifies this
      ensures Valid()
      ensures ok == error.None?
      ensures ok ==> newId == old(nextId) && newId !in old(rows)
      ensures ok ==> State() == TableState(old(rows)[newId := RowOf(q.columns, q.values)], old(nextId) + 1)
      ensures !ok ==> State() == old(State())
    {
      ok, newId := error.None?, nextId;
      if ok {
        rows := rows[nextId := RowOf(q.columns, q.values)];
        nextId := nextId + 1;
      }
    }

    /** Executes an UPDATE: the row whose id is the last bound value (converted
        as the 'i' type converts it) gets the assigned columns overwritten. */
    method ExecuteUpdate(q: UpdateQuery, error: Option<string>) returns (ok: bool)
      requires Valid()
      requires |q.values| == |q.columns| + 1
      modifies this
      ensures Valid()
      ensures ok == error.None?
      ensures var key := IntVal(q.values[|q.columns|]);
        var changes := RowOf(q.columns, q.values[..|q.columns|]);
        State() == if ok && key in old(rows)
                   then TableState(old(rows)[key := old(rows)[key] + changes], old(nextId))
                   else old(State())
    {
      ok := error.None?;
      var key := IntVal(q.values[|q.columns|]);
      if ok && key in rows {
        rows := rows[key := rows[key] + RowOf(q.columns, q.values[..|q.columns|])];
      }
    }

    /** Executes `DELETE FROM table WHERE id = ?` and reports `affected_rows`:
        1 or 0, or -1 when the store rejected the statement. */
    method ExecuteDelete(key: int, error: Option<string>) returns (affected: int)
      requires Valid()
      modifies this
      ensures Valid()
      ensures error.Some? ==> affected == -1 && State() == old(State())
      ensures error.None? ==> affected == (if key in old(rows) then 1 else 0)
      ensures error.None? ==> State() == TableState(old(rows) - {key}, old(nextId))
    {
      if error.Some? {
        affected := -1;
      } else {
        affected := if key in rows then 1 else 0;
        rows := rows - {key};
      }
    }
  }

  /** The whole database: the two CRUD tables and the enrollments. */
  class Database {
    const students: Table
    const courses: Table
    const enrollments: seq<Enrollment>

    ghost predicate Valid()
      reads this, students, courses
    {
      students != courses && students.Valid() && courses.Valid()
    }

    constructor (enrollments: seq<Enrollment>)
      ensures Valid() && fresh(students) && fresh(courses)
      ensures students.State() == TableState(map[], 1) && courses.State() == TableState(map[], 1)
      ensures this.enrollments == enrollments
    {
      students := new Table();
      courses := new Table();
      this.enrollments := enrollments;
    }

    /** The table object a table name selects. */
    function TableFor(t: TableName): Table
    {
      match t
      case Studenti => students
      case Corsi => courses
    }
  }
}
