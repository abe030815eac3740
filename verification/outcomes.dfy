/** Values shared by the grid model: the nullable cell, the exceptions the grid
    can raise, and the two shapes an operation's result can take. */
module Outcomes {

  /** A Java reference that may be null. */
  datatype Option<+T> = None | Some(value: T)

  /** The exceptions the grid raises, one constructor per throw site. */
  datatype GridError =
    | NegativeArraySize      // `new String[a][b]` with a negative dimension
    | InvalidFormat          // the selection key does not match the key pattern
    | ColumnOutOfBounds      // the explicit column guard fired
    | RowOutOfBounds         // the explicit row guard fired
    | ArrayIndexOutOfBounds  // an array read or write outside the allocated storage
    | NotFound               // the removal scan finished

  /** Java's `IndexOutOfBoundsException` covers the two guard exceptions and,
      as a subclass, the array fault: a caller catching it cannot tell them apart
      except by message. */
  predicate IsIndexOutOfBounds(e: GridError) {
    e == ColumnOutOfBounds || e == RowOutOfBounds || e == ArrayIndexOutOfBounds
  }

  /** The result of a computation that either yields a value or raises. */
  datatype Result<+T> = Ok(value: T) | Err(error: GridError)

  /** The result of a method on a mutable object: it returns normally, or it
      raises after whatever mutation happened before the throw. Either way the
      object's state afterwards is `state`. */
  datatype Outcome<+S> = Normal(state: S) | Thrown(error: GridError, state: S)
}
