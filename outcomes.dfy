/** Optional values (Java's nullable references) and the two failure kinds
    the expense service raises. */
module Outcomes {

  /** A Java reference that may be null: None stands for null. */
  datatype Option<+T> = None | Some(value: T)

  /** The two exceptions of the service: InvalidDataException and
      ItemNotFoundException. */
  datatype Failure = InvalidData | ItemNotFound

  /** Outcome of an operation that returns nothing (a Java void method):
      it either completes or throws one of the two exceptions. */
  datatype Status = Done | Failed(failure: Failure)

  /** Outcome of an operation that returns a value or throws. */
  datatype Result<+T> = Ok(value: T) | Err(failure: Failure)
}
