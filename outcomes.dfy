/** Option, and the value-or-exception result that the JSON library and the string
    operations of the source produce. */
module Outcomes {

  datatype Option<+T> = None | Some(value: T)

  /** The result of a step that the C++ code may abandon by throwing: a value, or an
      exception whose kind and message are not modelled. */
  datatype Try<+T> = Ok(value: T) | Throws

  /** What a resolver whose exceptions are not caught hands back to its caller: the
      links, or an exception that escapes it. */
  datatype Outcome = Returned(links: seq<string>) | Threw
}
