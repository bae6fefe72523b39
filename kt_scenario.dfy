/**
 The auditor's part of the end-to-end audit scenario: a fresh log
 initialised with a directory's epoch-0 STR, audited with the epoch-1 STR,
 then asked for the range [1, 1].
 */
module KtScenario {
  import opened Protocol
  import opened Auditor
  import opened AuditLog

  /**
   Whenever the message check and the chain check accept the epoch-1 STR,
   initialisation and audit succeed and the query for epoch 1 answers with
   exactly that STR; before the audit the same query is malformed.
   */
  method AuditLifecycle(c: Collaborators, signKey: PublicKey, s0: DirStr, s1: DirStr)
    returns (initErr: Outcome, early: Response<Option<DirStr>>, auditErr: Outcome, resp: Response<Option<DirStr>>)
    requires s0.epoch == 0 && s1.epoch == 1
    requires c.validate(StrHistoryRange([s1])).Pass?
    requires c.auditDirectory(signKey, s0, [s1]).Pass?
    ensures initErr == Pass && auditErr == Pass
    ensures early == ErrorResponse(ErrMalformedMessage)
    ensures resp == StrHistoryRange([Some(s1)])
  {
    var log := new ConiksAuditLog();
    initErr := log.InitHistory(c, "addr-of-test-dir", signKey, [s0]);
    var id := c.directoryIdentity(s0);
    early := log.GetObservedSTRs(AuditingRequest(id, 1, 1));
    auditErr := log.AuditId(c, id, StrHistoryRange([s1]));
    resp := log.GetObservedSTRs(AuditingRequest(id, 1, 1));
  }
}
