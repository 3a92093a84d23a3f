/** What a Go program can panic with, and what of it can be printed. */
module PanicValues {
  import opened Wrappers

  /**
   A value that prints itself, or one whose Error method (if `isError`) or String method panics with
   `raised`; `isNil` says that the value is a nil pointer.
   */
  datatype PanicValue = Printable(text: string) | Failing(isError: bool, isNil: bool, raised: PanicValue)

  /**
   The verb %v of fmt, which catches the panic of a method and prints its value, but lets a second panic
   pass that occurs on the way.
   */
  function Formatted(v: PanicValue): Result<string, PanicValue> {
    match v
    case Printable(text) => Ok(text)
    case Failing(_, true, _) => Ok("<nil>")
    case Failing(isError, false, raised) =>
      var prefix := "%!v(PANIC=" + (if isError then "Error" else "String") + " method: ";
      match raised
      case Printable(text) => Ok(prefix + text + ")")
      case Failing(_, true, _) => Ok(prefix + "<nil>)")
      case Failing(_, false, next) => Err(next)
  }

  /** The text that Recover logs: Error() of an error, %v of anything else; or the panic of getting it. */
  function Logged(v: PanicValue): Result<string, PanicValue> {
    if v.Failing? && v.isError then Err(v.raised) else Formatted(v)
  }

  /**
   What the log says of a panic: the text of a value that prints itself; of a value whose String method
   panics, the text of that panic, or <nil> for a nil pointer; and nothing of an error whose Error panics.
   */
  lemma LoggedText(v: PanicValue)
    ensures v.Printable? ==> Logged(v) == Ok(v.text)
    ensures v.Failing? && v.isError ==> Logged(v) == Err(v.raised)
    ensures v.Failing? && !v.isError && v.isNil ==> Logged(v) == Ok("<nil>")
    ensures v.Failing? && !v.isError && !v.isNil && v.raised.Printable? ==>
              Logged(v) == Ok("%!v(PANIC=String method: " + v.raised.text + ")")
    ensures Logged(v).Err? <==>
            v.Failing? && (v.isError || (!v.isNil && v.raised.Failing? && !v.raised.isNil))
  {
    assert "%!v(PANIC=" + "String" + " method: " == "%!v(PANIC=String method: ";
  }
}
