/** Why a handshake produced no agreement, and why a codec call produced no bytes. */
module Errors {

  datatype NegotiationError =
    | MalformedHeader
    | UnknownParameter
    | DuplicateParameter
    | InvalidWindowBits
    | ParameterArity
    | DuplicateExtension
    | ServerTakeoverNotHonoured
    | ServerWindowUnconfirmed
    | ServerWindowTooLarge
    | ClientWindowTooNarrow
    | ClientWindowValueless
    | OfferCollision
    | UnsolicitedExtension
    | OfferAltered
    | ResponseAltered
    | ExtensionConflict

  datatype CodecError =
    | MessageTooLong(size: nat, limit: nat)
    | InvalidStream
    | CompressionFailed
    | Stalled
    | Poisoned
}
