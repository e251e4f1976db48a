/** What a handler sends back: an HTTP status, the JSON `message`, and a body. */
module Http {
  import opened Wrappers

  const StatusOk := 200
  const StatusCreated := 201
  const StatusBadRequest := 400
  const StatusUnauthorized := 401
  const StatusForbidden := 403
  const StatusNotFound := 404
  const StatusServerError := 500

  /** `message` is "" where the handler sends no message field. */
  datatype Reply<T> = Reply(status: int, message: string, body: Option<T>)

  /** JavaScript truthiness of an optional string: present and not "". */
  predicate Truthy(s: Option<string>) {
    s.Some? && s.value != ""
  }
}
