/**
 What an upload request answers, with the JSON bodies and HTTP status codes
 reduced to their meaning. Messages are not modelled.
 */
module Responses {
  import Csv

  /** Why a request is refused with status 400. */
  datatype Reason =
    | NoFilePart                      // no `file` field in the form
    | NoFileSelected                  // the field's filename is empty
    | NotAllowedType                  // `allowed_file` said no
    | EmptyCsv                        // the decoded file has no rows at all
    | MissingColumn(column: string)   // the first required header that is absent

  datatype Outcome =
    | Success                                // status 200, whatever number of rows went in
    | Confirm(filename: string, hash: string) // `status: confirm`: same content seen before
    | ValidationError(reason: Reason)        // status 400
    | InternalError                          // status 500: an exception reached the outer handler

  /** The answer to a file that stops before any row is inserted. */
  function FromParseError(e: Csv.ParseError): (r: Outcome)
    ensures r.InternalError? <==> e.ReadFailed?
    ensures e.EmptyFile? ==> r == ValidationError(EmptyCsv)
    ensures e.MissingColumn? ==> r == ValidationError(MissingColumn(e.column))
  {
    match e
    case ReadFailed => InternalError
    case EmptyFile => ValidationError(EmptyCsv)
    case MissingColumn(name) => ValidationError(MissingColumn(name))
  }
}
