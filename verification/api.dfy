/**
 * What the Flask handlers have in common: a JSON error response with an HTTP status,
 * and Python truthiness of request fields.
 *
 * A JSON body is modelled field by field: `None` is a missing key (or JSON null), and
 * `Some(v)` a present value of the expected type.
 */
module Api {
  import opened Wrappers

  /** `jsonify({'error': message}), code`. */
  datatype Failure = Failure(code: int, message: string)

  function BadRequest(message: string): (f: Failure)
  { Failure(400, message) }

  function Unauthorized(message: string): (f: Failure)
  { Failure(401, message) }

  function Forbidden(message: string): (f: Failure)
  { Failure(403, message) }

  function NotFound(message: string): (f: Failure)
  { Failure(404, message) }

  function Conflict(message: string): (f: Failure)
  { Failure(409, message) }

  /** An exception the route does not catch: Flask answers 500 and the session is rolled back. */
  function ServerError(message: string): (f: Failure)
  { Failure(500, message) }

  /** `if not data.get(key)` fails exactly for a missing key, null or the empty string. */
  predicate Given(v: Option<string>) {
    v.Some? && v.value != ""
  }

  /** The same test on an integer field: 0 is falsy too. */
  predicate GivenId(v: Option<int>) {
    v.Some? && v.value != 0
  }
}
