/** The strings that the repository's components chain and compare.

    SHA-256 is modelled as a free algebra: a digest is the term that was hashed. Equal digests
    therefore have equal preimages, and digests of differently shaped preimages never coincide. */
module Digests {

  /** The fields of an execution record that its own hash covers. */
  datatype ExecutionBase = ExecutionBase(
    executionId: string,
    traceId: string,
    replayReference: string,
    executionSequence: int,
    producerIdentity: string,
    runtimeIdentity: string,
    governanceIdentity: string,
    executionStatus: string,
    runtimeHash: string,
    schemaVersion: string)

  datatype Digest =
    | Text(s: string)                                   // a plain string that is not a digest
    | Constant(tag: string)                             // hash of a fixed byte string
    | Json(canonical: string)                           // hash of a canonical JSON text
    | Leaf(sequence: int, eventType: string, eventHash: Digest, nodeId: string)
    | Execution(base: ExecutionBase)
    | Link(fields: seq<string>, previous: Digest)       // JSON object holding a previous hash
    | Pair(left: Digest, right: Digest)                 // hash of two concatenated digests

  const NO_DIGEST := Text("")
  const GENESIS := Constant("GENESIS")
}

module Wrappers {
  datatype Option<+T> = None | Some(value: T)

  datatype Result<+T> = Success(value: T) | Failure(error: string)
}
