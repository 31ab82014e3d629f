/** The two failure-carrying result types every other module uses. */
module Prelude {

  /** Rust's Option. */
  datatype Option<+T> = None | Some(value: T) {
    predicate IsFailure() {
      None?
    }

    function PropagateFailure<U>(): Option<U>
      requires None?
    {
      None
    }

    function Extract(): T
      requires Some?
    {
      value
    }
  }

  /** Rust's Result. */
  datatype Result<+T, +E> = Ok(value: T) | Err(error: E) {
    predicate IsFailure() {
      Err?
    }

    function PropagateFailure<U>(): Result<U, E>
      requires Err?
    {
      Err(error)
    }

    function Extract(): T
      requires Ok?
    {
      value
    }
  }

  /** `v as u64`. */
  function AsU64(v: int): nat {
    v % 0x1_0000_0000_0000_0000
  }

  /** `unwrap_or_default` of a text field. */
  function OrEmpty(field: Option<string>): (text: string)
    ensures field == None ==> text == ""
    ensures field.Some? ==> field == Some(text)
  {
    if field.Some? then field.value else ""
  }
}
