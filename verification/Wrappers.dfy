/**
 Results that can fail, as the repository's own calls can, and values that may be
 missing, as its own optional values may: nothing here is about any one module.
 */
module Wrappers {
  datatype Option<+T> = None | Some(value: T) {
    function Or(default: T): T {
      if Some? then value else default
    }
  }

  datatype Result<+T> = Ok(value: T) | Err {
    predicate IsFailure() { Err? }

    function PropagateFailure<U>(): Result<U>
      requires Err?
    {
      Err
    }

    function Extract(): T
      requires Ok?
    {
      value
    }

    function Or(default: T): T {
      if Ok? then value else default
    }
  }
}
