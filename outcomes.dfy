/** Values that stand for Java's null references and thrown exceptions. */
module Outcomes {

  /** `None` is Java's null: an absent key, an absent value or a null return. */
  datatype Option<+T> = None | Some(value: T)

  /** The unchecked exceptions the collections throw. */
  datatype Exception =
    | IllegalArgument         // bad constructor arguments
    | ConcurrentModification  // fail-fast iterator saw a structural change
    | NoSuchElement           // exhausted iterator, or first/last of an empty list
    | IllegalState            // iterator remove() without a preceding next()
    | IndexOutOfBounds        // positional access outside the list
    | NullPointer             // dereference of a null the collection returned
    | Arithmetic              // integer division by zero

  /** The outcome of a call that may throw. */
  datatype Result<+T> = Ok(value: T) | Throw(error: Exception)
}
