/**
 The parts of the auditor package and of the message validation that the
 audit log calls but whose code is not part of this model: the directory
 identity (a hash), the chain check of `AudState.AuditDirectory`, and
 `Response.Validate`. They are carried as function values, so every
 property proved about the audit log holds whatever they compute.
 */
module Auditor {
  import opened Protocol
  import SnapshotTable

  datatype Collaborators = Collaborators(
    /** `auditor.ComputeDirectoryIdentity`: the hash identifying a directory by its epoch-0 STR */
    directoryIdentity: DirStr -> Digest,
    /** `AudState.AuditDirectory`: checks a range against the pinned key and the verified STR */
    auditDirectory: (PublicKey, DirStr, seq<DirStr>) -> Outcome,
    /** `Response.Validate` */
    validate: Response<DirStr> -> Outcome)

  /**
   The linearity the chain check promises its callers: it accepts only a
   range whose epochs continue the verified STR's epoch one by one.
   */
  ghost predicate ChecksLinearity(c: Collaborators)
  {
    forall key, verified, strs :: c.auditDirectory(key, verified, strs).Pass? ==>
      SnapshotTable.Consecutive(verified.epoch + 1, strs)
  }
}
