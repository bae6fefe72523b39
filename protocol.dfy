/**
 Message and record types of the CONIKS protocol package that the audit log
 handles: signed tree roots, error codes, responses and auditing requests.
 */
module Protocol {

  /** A nullable pointer: `None` stands for Go's `nil`. */
  datatype Option<+T> = None | Some(value: T)

  /**
   A directory's signed tree root (STR). Only the epoch matters to the audit
   log; the tree root, the hash of the previous STR and the signature are an
   opaque payload that only the chain check reads.
   */
  datatype DirStr = DirStr(epoch: nat, payload: seq<bv8>)

  /** The protocol error codes the audit log and its collaborators report. */
  datatype ErrorCode =
    | ReqUnknownDirectory
    | ErrMalformedMessage
    | ErrAuditLog
      /**
       Codes only the chain check reports; the audit log passes them on
       unchanged. They keep its failures apart from the log's own codes.
       */
    | CheckBadSignature
    | CheckBadSTR
      /** stands for the ad hoc error "auditor: could not find id in map" of `AuditId` */
    | AuditIdNotFound

  /** A Go `error` result: `Pass` is `nil`. */
  datatype Outcome = Pass | Fail(error: ErrorCode)

  /**
   A protocol response: an error response carrying only its code, or an
   STR history range. `S` is `DirStr` for a range a directory sends, and
   `Option<DirStr>` for a range the audit log answers with, whose entries
   are pointers that may be nil.
   */
  datatype Response<S> = ErrorResponse(code: ErrorCode) | StrHistoryRange(strs: seq<S>)

  /** Size in bytes of a digest of the crypto package (SHA3-256). */
  const HashSizeByte: nat := 32

  /** A fixed-size digest, the key type `[crypto.HashSizeByte]byte`. */
  type Digest = s: seq<bv8> | |s| == HashSizeByte witness seq(HashSizeByte, _ => 0)

  /** A directory's public signing key, pinned by the auditor. */
  type PublicKey = seq<bv8>

  /** A client's request for the STRs of epochs `startEpoch..endEpoch` of one directory. */
  datatype AuditingRequest = AuditingRequest(dirInitStrHash: Digest, startEpoch: nat, endEpoch: nat)
}
