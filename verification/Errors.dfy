/** The lexer's error codes (JSONSL_XERR) that parsing a document can report. */
module Errors {
  datatype JsonError =
    | Success
    | SpecialExpected
    | SpecialIncomplete
    | StrayToken
    | MissingToken
    | CantInsert
    | EscapeOutsideString
    | StringOutsideContainer
    | FoundNullByte
    | LevelsExceeded
    | BracketMismatch
    | HKeyExpected
    | WeirdWhitespace
    | UEscapeTooShort
    | EscapeInvalid
    | TrailingComma
    | InvalidNumber
    | ValueExpected
    | PercentBadHex
    | InvalidCodepoint
}
