/** Failure-compatible result types shared by the numeric kernel, the
    function triplet and the checkpoint validator, and the one error type
    that stands for every `throw` of the core. */
module Outcomes {

  /** Which of the three checkpoint comparisons failed. */
  datatype Check = Value | Derivative | Inverse

  /** Every error the core throws, told apart by its cause. The message
      strings are not modelled; the values a message names are kept where
      they identify the failure. */
  datatype Error =
    | NotStrictlyPositive(name: string, value: real)
    | InvalidDomainBounds(xStart: real, xEnd: real)
    | EqualEndValues
    | MissingFunction
    | UnorderedDomain(d1: real, d2: real)
    | NotStrictlyMonotonous
    | OutsideDomain(x: real, low: real, high: real)
    | OutsideCodomain(y: real, low: real, high: real)
    | NoCheckPoints
    | NotAPoint(index: nat)
    | Mismatch(index: nat, check: Check)
    | NotConverged

  datatype Option<+T> = None | Some(value: T)

  /** A value, or the error that was thrown instead of returning it. */
  datatype Result<+T> = Ok(value: T) | Err(error: Error) {
    predicate IsFailure() { Err? }

    function PropagateFailure<U>(): Result<U>
      requires Err?
    {
      Err(error)
    }

    function Extract(): T
      requires Ok?
    {
      value
    }
  }

  /** Completion of a guard that returns nothing: it passes or throws. */
  datatype Outcome = Pass | Fail(error: Error)

  /** A numeric function as the core passes it around: evaluating it either
      yields a number or throws (a guarded triplet function throws outside
      its domain). */
  type Fn = real -> Result<real>
}
