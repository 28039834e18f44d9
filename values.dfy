// JavaScript values as the tree sees them: keys and values are numbers, and
// `null` marks the key and value of an empty root.
module Values {

  /** A JavaScript value restricted to `null` and (integer) numbers. */
  datatype Value = Null | Num(n: int)

  /** The number a relational comparison converts a value to (`null` becomes 0). */
  function ToNumber(v: Value): int
  {
    match v
    case Null => 0
    case Num(n) => n
  }

  /** JavaScript's `a < b` on `null` and numbers. */
  predicate Less(a: Value, b: Value)
  {
    ToNumber(a) < ToNumber(b)
  }

  /** The exceptions the tree throws: `new Error("Key Not Found")`, and the
      TypeError of a property read on `null`. */
  datatype Error = KeyNotFound | TypeError

  datatype Result<T> = Ok(value: T) | Err(error: Error)

  datatype Option<T> = None | Some(value: T)
}
