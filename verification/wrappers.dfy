/** Option and Result types used for the lookups and error paths of the tracker. */
module Wrappers {

  datatype Option<+T> = None | Some(value: T)

  /** The ways a request handler of the tracker can fail. */
  datatype Error =
    | NotFound          // get_object_or_404 found no row: a 404 page
    | DoesNotExist      // Model.objects.get found no row: an uncaught exception
    | IntegrityError    // a foreign key that names no row
    | ZeroDivision      // an unguarded division by a zero count
    | InvalidForm       // a required form field was left blank

  datatype Result<+T> = Success(value: T) | Failure(error: Error)
}
