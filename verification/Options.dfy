/** A value that may be absent: Cypher's NULL and Python's None. */
module Options {
  datatype Option<+T> = None | Some(value: T)

  /** Cypher's two-argument coalesce. */
  function Coalesce<T>(first: Option<T>, second: Option<T>): Option<T> {
    if first.Some? then first else second
  }
}
