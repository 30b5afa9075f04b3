/** Outcome codes (include/sff/core/outcome.hpp): those the modelled decisions return. */
module Outcome {
  datatype Code =
    | Ok
    | Unknown
    | Stale
    | Conflict
    | Invalid
    | Unsupported
    | Denied
    | Unauthorized
    | Fenced
    | NotFound
    | AlreadyExists
    | Exhausted
    | Corrupt
    | PartialClosure
    | Expired
    | Unverified
    | Indeterminate
    | Closed
}
