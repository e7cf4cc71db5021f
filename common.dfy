/** Values shared by every part of the model: optional values, the outcome of a
    PHP call that either returns or throws, and PHP's truthiness of strings. */
module Php {

  datatype Option<T> = None | Some(value: T) {
    function GetOr(default: T): T {
      match this
      case Some(v) => v
      case None => default
    }
  }

  /** Why a call did not return normally. */
  datatype Error =
    | DivisionByZero      // DivisionByZeroError, not caught by `catch (\Exception)`
    | ValueError          // ValueError from a GD function given an illegal argument
    | UndefinedKey        // "Undefined array key", turned into an ErrorException by Laravel
    | OffsetOnBool        // "Trying to access array offset on value of type bool", likewise
    | NotFound            // findOrFail: ModelNotFoundException, answered with 404
    | ClassNotFound       // a static call on a string that names no class: Error, answered with 500
    | ValidationFailed    // $request->validate: ValidationException, answered with 422

  /** The outcome of a PHP call: it returns a value or it throws. */
  datatype Call<T> = Returns(value: T) | Throws(error: Error)

  /** `if ($s)` for a string: only "" and "0" are false. */
  predicate Truthy(s: string) {
    s != "" && s != "0"
  }

  /** `empty($s)` for a nullable string. */
  predicate IsEmpty(s: Option<string>) {
    match s
    case None => true
    case Some(v) => !Truthy(v)
  }
}
