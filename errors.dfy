/** The error kinds the HTTP handlers of server.js report, one per distinct message. */
module Errors {
  datatype Error =
    | TextRequired        // "Question text is required."
    | TextTooLong         // "Question is too long (max 280 chars)."
    | InvalidId           // "Valid question id is required."
    | BadDirection        // "Direction must be 'up' or 'down'."
    | NotFound            // "Question not found."
    | InvalidCredentials  // "Invalid credentials."
    | Unauthorized        // "Unauthorized."

  /** The HTTP status each error kind is answered with. */
  function StatusCode(e: Error): (s: int)
    ensures s == 400 || s == 401 || s == 404
    ensures s == 401 <==> e == InvalidCredentials || e == Unauthorized
    ensures s == 404 <==> e == NotFound
  {
    match e
    case TextRequired | TextTooLong | InvalidId | BadDirection => 400
    case InvalidCredentials | Unauthorized => 401
    case NotFound => 404
  }
}
