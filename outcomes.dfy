/** How a step of the sampler ends: with a value, or with the exception it raises. */
module Outcomes {

  /**
   * `InvalidOperation` is numpy's FloatingPointError, raised because the module turns
   * invalid floating-point results (0/0) into errors; `AssertionFailed` is a failed
   * `assert` statement.
   */
  datatype Fault = InvalidOperation | AssertionFailed

  datatype Result<T> = Ok(value: T) | Raised(fault: Fault)
}
