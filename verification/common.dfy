/** Shared vocabulary of the engine model: optional values (the C# null), the
    failures the engine raises as exceptions, and the integer rectangle used for
    sprite source regions and animation frames. */
module Common {

  /** A reference that may be null. */
  datatype Option<+T> = None | Some(value: T)

  /** The exceptions the engine throws, one constructor per distinct cause. */
  datatype Error =
    | NullArgument        // a required argument was null
    | CapacityExceeded    // the scene already holds its maximum of entities
    | NotInScene          // the entity is not stored in the scene
    | AlreadyInScene      // the entity object is already stored in the scene
    | NoSuchEntity        // no entity is stored under the id or name asked for
    | EmptyName           // an entity name that is empty
    | DuplicateComponent  // the entity already has a component of that kind
    | MissingComponent    // the entity has no component of that kind
    | BaseComponent       // a plain Component, which has no kind, was passed
    | IndexOutOfRange     // an array access outside its bounds
    | NullReference       // a member access through a null reference
    | DivideByZero        // an integer division or remainder by zero
    | InvalidOperation    // a PrimitiveBatch call out of protocol order
    | NotSupported        // a strip primitive type given to PrimitiveBatch

  /** The value of an operation that either returns or throws. */
  datatype Result<+T> = Ok(value: T) | Err(error: Error)

  /** Either completed normally or threw; used where a failing operation still
      leaves state behind. */
  datatype Outcome = Pass | Fail(error: Error)

  /** What a loop leaves behind and whether it ran to the end: when it throws
      partway, the writes of the iterations before the throw remain. */
  datatype Run<+T> = Run(value: T, status: Outcome)

  /** An XNA Rectangle: location and size in integer pixels. */
  datatype Rect = Rect(x: int, y: int, width: int, height: int)
  {
    function Right(): int { x + width }
    function Bottom(): int { y + height }
  }

  /** Rectangle.Empty. */
  const EmptyRect := Rect(0, 0, 0, 0)
}
