/** The errors of src/error.rs, without their texts, and the result type of every fallible operation. */
module Errors {

  datatype Error =
    | NotEggFile
    | CorruptedFile
    | CantOpenFile
    | CantOpenDestFile
    | InvalidFileCrc(expected: bv32, got: bv32)
    | UnknownCompressionMethod(code: nat)
    | UnsupportedEncryption(code: nat)
    | PasswordNotSet
    | InvalidPassword
    | AuthenticationFailed
    | PathTraversal
    | InflateFailed
    | LzmaFailed
    | Bzip2Failed
    | AzoFailed
    | FileNotFound
    | Io

  datatype Option<+T> = None | Some(value: T)

  datatype Result<+T> = Ok(value: T) | Err(error: Error) {
    predicate IsFailure() {
      Err?
    }

    function PropagateFailure<U>(): Result<U>
      requires Err?
    {
      Err(error)
    }

    function Extract(): T
      requires Ok?
    {
      value
    }
  }

  datatype Unit = Unit
}
