/** The value-or-nothing and value-or-refusal shapes the source spells `T | null` and `throw RangeError`. */
module Wrappers {
  datatype Option<+T> = None | Some(value: T) {
    predicate IsFailure() { None? }

    function PropagateFailure<U>(): Option<U>
      requires None?
    {
      None
    }

    function Extract(): T
      requires Some?
    {
      value
    }
  }

  /** `Refused` stands for a thrown error: the call produced no value. */
  datatype Result<+T> = Ok(value: T) | Refused {
    predicate IsFailure() { Refused? }

    function PropagateFailure<U>(): Result<U>
      requires Refused?
    {
      Refused
    }

    function Extract(): T
      requires Ok?
    {
      value
    }
  }
}
