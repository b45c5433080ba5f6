/** An optional value, usable with Dafny's `:-` so that a chain of parsing
    stages stops at the first stage that finds nothing. */
module Options {

  datatype Option<+T> = None | Some(value: T) {

    predicate IsFailure() { None? }

    function PropagateFailure<U>(): Option<U>
      requires None?
    {
      None
    }

    function Extract(): T
      requires Some?
    {
      value
    }
  }
}
