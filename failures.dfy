/** The fatal conditions of the interpreter, one per diagnostic message it
    can hand to the host's `fatal` callback, and the Result type that the
    model returns instead of unwinding with longjmp. */
module Failures {

  datatype ErrorKind =
    | StackUnderflow          // "stack underflow"
    | StackTypeMismatch       // "stack type mismatch"
    | UnsupportedInjection    // "unsupported code injection"
    | DivideByZero            // "divide by zero"
    | ShiftNegativeValue      // "shifting a negative signed value is undefined"
    | ShiftCountNegative      // "shift count is negative"
    | ShiftCountTooWide       // "shift count >= width of type"
    | AssertionFailed         // "assertion failed"
    | BadMultiByte            // "bad multi-byte character"
    | UnbalancedSymbol        // "unbalanced symbol"
    | UnknownSymbol           // "unknown symbol"
    | UnterminatedStatement   // "unterminated statement"
    | TooFewArguments         // "too few arguments"
    | TooManyArguments        // "too many arguments"
    | NonNumericArgument      // "non-numeric argument"
    | StackNotEmpty           // "stack not empty"

  datatype Result<+T> = Ok(value: T) | Err(error: ErrorKind)

  datatype Option<+T> = None | Some(value: T)
}
