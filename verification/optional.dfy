/** A value that may be missing: JavaScript's `null` / `undefined` for record fields
    and for outcomes that can fail. */
module Optional {

  datatype Option<+T> = None | Some(value: T) {

    /** The value, or `default` when missing (JavaScript's `x ?? default`). */
    function GetOr(default: T): T
    {
      match this
      case Some(v) => v
      case None => default
    }
  }

  /** JavaScript truthiness of an optional number: present and not zero. */
  predicate TruthyInt(x: Option<int>)
  {
    x.Some? && x.value != 0
  }

  /** JavaScript truthiness of an optional string: present and not empty. */
  predicate TruthyString(x: Option<string>)
  {
    x.Some? && x.value != ""
  }
}
