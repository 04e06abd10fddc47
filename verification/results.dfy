/** Failure-carrying values shared by every module of the model.

    `Option` is the "may be absent" value (a solver that gave no answer, a
    regular expression that did not match); `Result` stands for a Python call
    that either returns a value or raises, the raised exception being reduced
    to a message.
 */
module Results {

  datatype Option<+T> = None | Some(value: T)

  datatype Result<+T> = Ok(value: T) | Err(msg: string) {

    predicate IsFailure() {
      Err?
    }

    function PropagateFailure<U>(): Result<U>
      requires Err?
    {
      Err(msg)
    }

    function Extract(): T
      requires Ok?
    {
      value
    }
  }
}
