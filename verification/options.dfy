/** An optional value: a request header, a query parameter, an environment
    variable or a lookup that may be absent. */
module Options {
  datatype Option<+T> = None | Some(value: T)

  /** JavaScript truthiness of an optional string: `!!value` is true only for
      a present, non-empty string. */
  predicate Truthy(s: Option<string>)
  {
    s.Some? && s.value != ""
  }
}
