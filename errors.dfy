/**
 * The exceptions the engine throws, and the result type that carries them.
 */
module Errors {

  /**
   * The JavaScript error classes the engine raises, and the `DOMException`
   * the DOM raises from inside `before()` or `append()`.
   */
  datatype ErrorKind = TypeErrorKind | RangeErrorKind | DomExceptionKind

  /**
   * One constructor per `throw` of the engine, and one for the DOM's
   * `HierarchyRequestError` (the message text is not modelled).
   */
  datatype Error =
    | NoSpecs                                 // no object passed to the constructor
    | DuplicateSource(source: nat)            // the same `sourceElement` in two objects
    | NoBreakpoints(source: nat)              // an empty `breakpoints` object
    | TriggerOutOfRange                       // a breakpoint key that is not a number in (0, MAX_SAFE_INTEGER]
    | TargetIsSource(source: nat)             // `targetElement === sourceElement`
    | TargetInsideSource(source: nat, target: nat)
    | TargetNotContainer(target: nat)         // a self-closing (void) target tag
    | PositionNotNumber                       // `typeof targetPosition !== 'number'`
    | PositionOutOfRange                      // negative or not a safe integer
    | SourceDetached(source: nat)             // `parentElement` is null: reading `.children` throws
    | PositionExceedsMaximum(position: nat, maximum: nat)
    | HierarchyRequest(source: nat, target: nat) // inserting a node under itself or under one of its descendants
  {
    /** Which JavaScript error class the engine throws for this error. */
    function Kind(): ErrorKind
    {
      match this
      case TriggerOutOfRange | PositionOutOfRange | PositionExceedsMaximum(_, _) => RangeErrorKind
      case HierarchyRequest(_, _) => DomExceptionKind
      case _ => TypeErrorKind
    }
  }

  datatype Result<+T> = Ok(value: T) | Err(error: Error)
}
