/** Error outcomes of the Python code: the exceptions that the modelled
    functions raise become values of `Result`. */
module Outcomes {

  /** The Python exceptions that the core can raise. */
  datatype Error =
    | ValueError(message: string)   // raised explicitly, or by math.sqrt of a negative number
    | ZeroDivisionError             // `x % 0`

  datatype Option<+T> = None | Some(value: T)

  datatype Result<+T> = Ok(value: T) | Err(error: Error)

  /** The message `reversed_dickson` and `classical_dickson` raise for n < 0. */
  const NegativeIndex: Error := ValueError("n must be non-negative")

  /** The message `math.sqrt` raises for a negative argument. */
  const MathDomain: Error := ValueError("math domain error")
}
