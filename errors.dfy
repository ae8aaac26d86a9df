/** The failures the struct can raise, a failure-compatible result, and an option. */
module Errors {

  /** `ArgumentOutOfRange`: the platform calendar rejected a field or an
      arithmetic result; `Overflow`: `int.Parse` of a digit run above
      `int.MaxValue`; `InvalidFormat`: the `ArgumentException` of `Parse`,
      carrying the rejected text. */
  datatype Error = ArgumentOutOfRange | Overflow | InvalidFormat(text: string)

  datatype Option<+T> = None | Some(value: T)

  datatype Result<+T> = Ok(value: T) | Err(error: Error) {
    predicate IsFailure() {
      Err?
    }

    function PropagateFailure<U>(): Result<U>
      requires Err?
    {
      Err(error)
    }

    function Extract(): T
      requires Ok?
    {
      value
    }
  }
}
