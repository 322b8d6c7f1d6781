/** `JSON.stringify` / `JSON.parse`, left abstract: a codec is a pair of functions, and the
    properties the model relies on are predicates that callers must establish. */
module Json {
  import opened Wrappers

  datatype Codec<!T> = Codec(stringify: T -> string, parse: string -> Option<T>)

  /** Parsing what was stringified gives the value back. */
  ghost predicate RoundTrips<T(!new)>(c: Codec<T>) {
    forall x :: c.parse(c.stringify(x)) == Some(x)
  }

  /** The text of every value is a JSON object, so it begins with `{`. */
  ghost predicate ObjectText<T(!new)>(c: Codec<T>) {
    forall x :: |c.stringify(x)| > 0 && c.stringify(x)[0] == '{'
  }

  /** The text of every value is non-empty (true of all JSON texts). */
  ghost predicate NonEmptyText<T(!new)>(c: Codec<T>) {
    forall x :: c.stringify(x) != []
  }
}
