/** The results of operations that can throw, shared by every module. */
module Outcomes {

  /** The standard exception classes the modelled code throws.  `BrokenAssertion` stands for a
      failed `assert`, after which the program does not continue. */
  datatype Error = OutOfRange | DomainError | InvalidArgument | LengthError | BrokenAssertion

  datatype Result<+T> = Ok(value: T) | Err(error: Error) {
    predicate IsFailure() {
      Err?
    }

    function PropagateFailure<U>(): Result<U>
      requires Err?
    {
      Err(error)
    }

    function Extract(): T
      requires Ok?
    {
      value
    }
  }

  datatype Option<+T> = None | Some(value: T)

  /** `whole` is what `more` becomes when the elements found so far are put before it. */
  ghost predicate Continues<T>(whole: Result<seq<T>>, done: seq<T>, more: Result<seq<T>>) {
    if more.Ok? then whole.Ok? && whole.value == done + more.value else whole == more
  }
}
