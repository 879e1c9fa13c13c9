/** Small shared vocabulary: optional values, results, and the error
    responses the HTTP handlers send. */
module Common {

  datatype Option<+T> = None | Some(value: T)

  datatype Result<+T, +E> = Ok(value: T) | Err(error: E)

  /** The kinds of error response a handler writes instead of a payload
      (400, 422 with the field-keyed messages, 404, 409 and 500). */
  datatype ErrorResponse =
    | BadRequest
    | FailedValidation(errors: map<string, string>)
    | NotFound
    | EditConflict
    | ServerError

  /** Go's `v, ok := m[k]` as one value. */
  function Lookup<K, V>(m: map<K, V>, k: K): (r: Option<V>)
    ensures r.Some? <==> k in m
    ensures r.Some? ==> r.value == m[k]
  {
    if k in m then Some(m[k]) else None
  }
}
