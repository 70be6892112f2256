/** Type codes ("NCodes") and the result and option values shared by the
    AMOS model.

    The registry that turns a mnemonic into the packed integer NCode_t is not
    part of this model, so a code is represented by its mnemonic itself: two
    codes are equal exactly when their mnemonics are, which is the injectivity
    the registry promises for well-formed mnemonics. */
module NCodes {

  datatype NCode = NCode(mnemonic: string)

  //-- Message NCode types used by the model
  const M_NULL: NCode := NCode("NUL")

  //-- Bank NCode of the fragment account
  const BANK_FRAGMENT: NCode := NCode("FRG")

  /** The exception classes the modelled operations can raise. */
  datatype Error = ArgumentError | StreamCorruption

  /** An operation that returns a value or throws. */
  datatype Result<T> = Ok(value: T) | Err(error: Error)

  /** An operation that returns nothing or throws. */
  datatype Outcome = Pass | Fail(error: Error)

  /** A value that may be absent (a NULL pointer, a missing item). */
  datatype Option<T> = None | Some(value: T)
}
