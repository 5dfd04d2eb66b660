/** Request fields and response status codes, as the handlers see them. */
module Http {
  import opened Wrappers

  /** A string read from a request body or query: `None` when absent. */
  type Field = Option<string>

  /** JavaScript truthiness of an optional string: present and not empty. */
  predicate Truthy(f: Field)
  {
    f.Some? && f.value != ""
  }

  const OK: int := 200
  const ALREADY_REPORTED: int := 208
  const BAD_REQUEST: int := 400
  const FORBIDDEN: int := 403
  const NOT_FOUND: int := 404
  const CONFLICT: int := 409
  const SERVER_ERROR: int := 500
}
