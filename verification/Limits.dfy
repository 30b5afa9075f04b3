/** The resource bounds the modelled components read (include/sff/core/limits.hpp). */
module Limits {

  const HARD_MAX_ELEMENTS: nat := 0x400_0000
  const HARD_MAX_DOCUMENT_BYTES: nat := 0x1000_0000
  const HARD_MAX_FRAME_PAYLOAD: nat := 0x100_0000

  datatype Limits = Limits(
    maxClosureNodes: nat,
    maxClosureEdges: nat,
    maxCandidatesEvaluated: nat,
    maxUnresolvedDependents: nat,
    maxAuthorityGrants: nat,
    maxFences: nat,
    maxEvidenceRecords: nat,
    maxJournalRecords: nat,
    maxFramePayload: nat,
    maxDocumentBytes: nat)
  {
    /** Every bound is positive and below its hard ceiling. */
    predicate Valid() {
      && 0 < maxClosureNodes <= HARD_MAX_ELEMENTS
      && 0 < maxClosureEdges <= HARD_MAX_ELEMENTS
      && 0 < maxCandidatesEvaluated <= HARD_MAX_ELEMENTS
      && 0 < maxUnresolvedDependents <= HARD_MAX_ELEMENTS
      && 0 < maxAuthorityGrants <= HARD_MAX_ELEMENTS
      && 0 < maxFences <= HARD_MAX_ELEMENTS
      && 0 < maxEvidenceRecords <= HARD_MAX_ELEMENTS
      && 0 < maxJournalRecords <= HARD_MAX_ELEMENTS
      && 0 < maxFramePayload <= HARD_MAX_FRAME_PAYLOAD
      && 0 < maxDocumentBytes <= HARD_MAX_DOCUMENT_BYTES
      && maxFramePayload <= maxDocumentBytes
    }
  }
}
