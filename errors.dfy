/** The error kinds raised by the annotation routes (app/exceptions.py and the
    inline HTTPExceptions), without their HTTP status codes. */
module Errors {

  /** Why an annotation payload was refused by the request models. */
  datatype ValidationError =
    | MissingField                  // a required field is absent or has the wrong type
    | TooFewPoints(message: string) // a point-list validator refused the list

  datatype Error =
    | ProjectNotFound               // "Project not found"
    | ImageNotFound                 // "Image not found"
    | InvalidAnnotation(reason: ValidationError)
    | MissingEntities               // iterating over an absent entity list (a TypeError)
    | NoAnnotations                 // "No annotations found for this project"
    | NotImplemented                // the base annotator's `annotate`
}
