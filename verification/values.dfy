/** Values as the request handlers see them: a request-body field is either
    absent (undefined or null) or a string, and JavaScript truthiness decides
    whether a guard such as `if (!field)` lets it through. */
module Values {

  /** An optional value: `None` stands for undefined/null (SQL NULL once stored). */
  datatype Option<+T> = None | Some(value: T)

  /** A computation that either yields a value or fails with an error message
      (the `callback(err)` / `callback(null, value)` convention). */
  datatype Result<+T> = Ok(value: T) | Error(message: string)

  /** JavaScript truthiness of a string field: absent and "" are falsy. */
  predicate Present(field: Option<string>)
  {
    field.Some? && field.value != ""
  }

  /** `field || fallback` for a string field. */
  function OrElse(field: Option<string>, fallback: string): string
  {
    if Present(field) then field.value else fallback
  }
}
