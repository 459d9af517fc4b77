/**
 * The single response every request ends with (`rispondi`, or the bare
 * `http_response_code(204); exit` of a delete): a status and a body that is
 * either an error object or the data the handler read.
 */
module Http {
  import opened Schema

  datatype Body =
    | Error(message: string)                 // {"errore": message}
    | Record(id: int, row: Row)              // one row, re-read after a write or looked up by id
    | Rows(table: map<int, Row>)             // every row of a table, keyed by id
    | EnrollmentList(items: seq<Enrollment>) // the rows of a join query
    | NoContent                              // an empty body

  datatype Response = Response(status: int, body: Body)

  /** `rispondi(["errore" => $message], $status)`: the status, and an error
      object carrying the message. */
  function Fail(status: int, message: string): (r: Response)
    ensures r.status == status && r.body.Error? && r.body.message == message
  {
    Response(status, Error(message))
  }
}
