/** The .NET exceptions the managed side lets escape. */
module Clr {
  datatype Exception =
    | InvalidOperation(message: string)
    | ArgumentOutOfRange
    | Overflow
    | JsonException(message: string)
}
