/** Option and Result, and the Java exception kinds a Result can carry. */
module Wrappers {

  datatype Option<T> = None | Some(value: T)

  /** The exception classes the modelled code throws or lets escape. */
  datatype Error =
    | IllegalArgument       // IllegalArgumentException
    | IndexOutOfBounds      // StringIndexOutOfBounds / ArrayIndexOutOfBounds / IndexOutOfBounds
    | NullPointer           // NullPointerException
    | NumberFormat          // NumberFormatException
    | ClassCast             // ClassCastException
    | Runtime               // a plain RuntimeException
    | PeltasFailure         // PeltasException
    | ConversionFailure     // PeltasConversionException / ConversionFailedException

  datatype Result<T> = Ok(value: T) | Err(error: Error)

  /** A Result carrying no value is Ok(()) as soon as it is Ok: the unit value is unique. */
  lemma OkUnit(r: Result<()>)
    requires r.Ok?
    ensures r == Ok(())
  {
    var u: () := r.value;
    assert u == ();
  }
}
