/** The Some/None wrapper used for every read and decode that can fail.
    It is failure-compatible, so a chain of reads can be written with `:-`,
    the first failing read ending the chain as the source's exception does. */
module Options {

  datatype Option<+T> = None | Some(value: T) {

    predicate IsFailure() {
      None?
    }

    function PropagateFailure<U>(): Option<U>
      requires None?
    {
      None
    }

    function Extract(): T
      requires Some?
    {
      value
    }
  }
}
