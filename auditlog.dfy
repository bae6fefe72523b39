/**
 A CONIKS audit log, kept by an auditor: a mirror of the STR histories of
 many key directories, each indexed by the identity of the directory (the
 hash of its epoch-0 STR).
 */
module AuditLog {
  import opened Protocol
  import opened Auditor
  import opened SnapshotTable

  /** What one directory history records, as a value. */
  datatype HistoryState = HistoryState(addr: string, signKey: PublicKey, verified: DirStr, snapshots: Table)

  /**
   The history of one directory: the auditor's state for it (the pinned
   signing key and the latest verified STR), the directory's address, and
   every STR stored so far, indexed by epoch.
   */
  class DirectoryHistory {
    const addr: string
    const signKey: PublicKey
    var verified: DirStr
    var snapshots: Table

    /** Every STR is stored under its own epoch, and the verified STR is stored. */
    ghost predicate Valid()
      reads this
    {
      && Keyed(snapshots)
      && verified.epoch in snapshots
      && snapshots[verified.epoch] == verified
    }

    /** The table holds exactly the epochs up to the verified STR's. */
    ghost predicate Gapless()
      reads this
    {
      SnapshotTable.Gapless(snapshots, verified.epoch)
    }

    ghost function State(): HistoryState
      reads this
    {
      HistoryState(addr, signKey, verified, snapshots)
    }

    /** `newDirectoryHistory`: pins `signKey`, verifies and stores `initStr`. */
    constructor (addr: string, signKey: PublicKey, initStr: DirStr)
      ensures Valid()
      ensures State() == HistoryState(addr, signKey, initStr, map[initStr.epoch := initStr])
      ensures initStr.epoch == 0 ==> Gapless()
    {
      this.addr := addr;
      this.signKey := signKey;
      verified := initStr;
      snapshots := map[];
      new;
      UpdateVerifiedStr(initStr);
    }

    /** `updateVerifiedSTR`: `s` becomes the verified STR and is stored under its epoch. */
    method UpdateVerifiedStr(s: DirStr)
      requires Keyed(snapshots)
      modifies this
      ensures Valid()
      ensures verified == s
      ensures snapshots == old(snapshots)[s.epoch := s]
    {
      verified := s;
      snapshots := snapshots[s.epoch := s];
    }

    /**
     `insertRange`: stores every STR of `strs` in order; the last one becomes
     the verified STR. A range that continues the verified epoch one by one
     keeps the table gap-free.
     */
    method InsertRange(strs: seq<DirStr>)
      requires Valid()
      modifies this
      ensures Valid()
      ensures snapshots == Inserted(old(snapshots), strs)
      ensures verified == LastOr(strs, old(verified))
      ensures old(Gapless()) && Consecutive(old(verified).epoch + 1, strs) ==>
                Gapless() && verified.epoch == old(verified).epoch + |strs|
    {
      var i := 0;
      while i < |strs|
        invariant i <= |strs|
        invariant Valid()
        invariant snapshots == Inserted(old(snapshots), strs[..i])
        invariant verified == LastOr(strs[..i], old(verified))
      {
        InsertedSnoc(old(snapshots), strs[..i], strs[i]);
        assert strs[..i + 1] == strs[..i] + [strs[i]];
        UpdateVerifiedStr(strs[i]);
        i := i + 1;
      }
      assert strs[..i] == strs;
      if old(Gapless()) && Consecutive(old(verified).epoch + 1, strs) {
        InsertedConsecutive(old(snapshots), old(verified).epoch, strs);
      }
    }

    /**
     `Audit`: validates the message, checks the range against the verified
     STR, and only if both pass stores the range. All or nothing: a failed
     check leaves the history as it was.
     */
    method Audit(c: Collaborators, msg: Response<DirStr>) returns (r: Outcome)
      requires Valid()
      requires msg.StrHistoryRange? || c.validate(msg).Fail?
      modifies this
      ensures Valid()
      ensures c.validate(msg).Fail? ==> r == c.validate(msg)
      ensures c.validate(msg).Pass? ==> r == c.auditDirectory(signKey, old(verified), msg.strs)
      ensures r.Fail? ==> verified == old(verified) && snapshots == old(snapshots)
      ensures r.Pass? ==>
                && snapshots == Inserted(old(snapshots), msg.strs)
                && verified == LastOr(msg.strs, old(verified))
      ensures r.Pass? && ChecksLinearity(c) && old(Gapless()) ==> Gapless()
    {
      r := c.validate(msg);
      if r.Fail? {
        return;
      }
      var strs := msg.strs;
      r := c.auditDirectory(signKey, verified, strs);
      if r.Fail? {
        return;
      }
      InsertRange(strs);
    }
  }

  /**
   Lines 154 and 161 of `InitHistory`: a history made from the epoch-0 STR
   `snaps[0]` with the remaining STRs inserted after it.
   */
  method NewHistory(addr: string, signKey: PublicKey, snaps: seq<DirStr>) returns (h: DirectoryHistory)
    requires |snaps| > 0
    ensures fresh(h) && h.Valid()
    ensures h.State() == HistoryState(addr, signKey, snaps[|snaps| - 1], Inserted(map[], snaps))
    ensures Consecutive(0, snaps) ==> h.Gapless()
  {
    h := new DirectoryHistory(addr, signKey, snaps[0]);
    if Consecutive(0, snaps) {
      forall i | 0 <= i < |snaps[1..]| ensures snaps[1..][i].epoch == 1 + i {
        assert snaps[1..][i] == snaps[i + 1];
      }
    }
    h.InsertRange(snaps[1..]);
  }

  /** The state of a history after a successful audit of `strs`. */
  function Extended(st: HistoryState, strs: seq<DirStr>): HistoryState
  {
    st.(verified := LastOr(strs, st.verified), snapshots := Inserted(st.snapshots, strs))
  }

  /**
   The audit log: the directory histories the auditor knows, indexed by
   directory identity. Distinct identities hold distinct histories.
   */
  class ConiksAuditLog {
    var histories: map<Digest, DirectoryHistory>

    ghost predicate Valid()
      reads this, histories.Values
    {
      && (forall a, b :: a in histories && b in histories && a != b ==> histories[a] != histories[b])
      && (forall a :: a in histories ==> histories[a].Valid())
    }

    /** Every history in the log is gap-free. */
    ghost predicate Gapless()
      reads this, histories.Values
    {
      forall a :: a in histories ==> histories[a].Gapless()
    }

    /** `New`: an empty log. */
    constructor ()
      ensures Valid() && Gapless()
      ensures histories == map[]
    {
      histories := map[];
    }

    /** `set`: associates the history `h` with the identity `id`. */
    method Set(id: Digest, h: DirectoryHistory)
      requires Valid() && h.Valid()
      requires forall a :: a in histories && a != id ==> histories[a] != h
      modifies this
      ensures Valid()
      ensures histories == old(histories)[id := h]
    {
      histories := histories[id := h];
    }

    /** `get`: the history of `id`, and whether the log has one. */
    method Get(id: Digest) returns (h: DirectoryHistory?, ok: bool)
      ensures ok <==> id in histories
      ensures ok ==> h == histories[id]
      ensures !ok ==> h == null
    {
      ok := id in histories;
      h := if ok then histories[id] else null;
    }

    /**
     `AuditId`: audits `msg` against the history of `id`. An unknown
     identity is an error and changes nothing; otherwise only the history
     of `id` may change, and only as `Audit` says.
     */
    method AuditId(c: Collaborators, id: Digest, msg: Response<DirStr>) returns (r: Outcome)
      requires Valid()
      requires msg.StrHistoryRange? || c.validate(msg).Fail?
      modifies histories.Values
      ensures Valid()
      ensures histories == old(histories)
      ensures forall a :: a in histories && a != id ==> unchanged(histories[a])
      ensures id !in histories ==> r == Fail(AuditIdNotFound)
      ensures id in histories && c.validate(msg).Fail? ==> r == c.validate(msg)
      ensures id in histories && c.validate(msg).Pass? ==>
                r == c.auditDirectory(histories[id].signKey, old(histories[id].verified), msg.strs)
      ensures id in histories ==>
                histories[id].State() == if r.Pass? then Extended(old(histories[id].State()), msg.strs)
                                         else old(histories[id].State())
      ensures r.Pass? && ChecksLinearity(c) && old(Gapless()) ==> Gapless()
    {
      var h, ok := Get(id);
      if !ok {
        return Fail(AuditIdNotFound);
      }
      r := h.Audit(c, msg);
      forall a | a in histories && a != id
        ensures unchanged(histories[a])
      {
        assert histories[a] != h;
      }
    }

    /**
     `InitHistory`: creates the history of the directory whose STRs so far
     are `snaps`, pinning `signKey`. The list must start with an epoch-0
     STR, and the directory must not be in the log yet; otherwise nothing
     changes. The new history stores `snaps` in order and verifies the last.
     */
    method InitHistory(c: Collaborators, addr: string, signKey: PublicKey, snaps: seq<DirStr>) returns (r: Outcome)
      requires Valid()
      modifies this
      ensures Valid()
      ensures |snaps| == 0 || snaps[0].epoch != 0 ==> r == Fail(ErrMalformedMessage)
      ensures |snaps| > 0 && snaps[0].epoch == 0 && c.directoryIdentity(snaps[0]) in old(histories) ==>
                r == Fail(ErrAuditLog)
      ensures |snaps| > 0 && snaps[0].epoch == 0 && c.directoryIdentity(snaps[0]) !in old(histories) ==>
                r == Pass
      ensures r.Fail? ==> histories == old(histories)
      ensures r.Pass? ==>
                |snaps| > 0 &&
                var id := c.directoryIdentity(snaps[0]);
                && id in histories
                && fresh(histories[id])
                && histories == old(histories)[id := histories[id]]
                && histories[id].State() == HistoryState(addr, signKey, snaps[|snaps| - 1], Inserted(map[], snaps))
      ensures old(Gapless()) && Consecutive(0, snaps) ==> Gapless()
    {
      if |snaps| < 1 || snaps[0].epoch != 0 {
        return Fail(ErrMalformedMessage);
      }
      var id := c.directoryIdentity(snaps[0]);
      var h, ok := Get(id);
      if ok {
        return Fail(ErrAuditLog);
      }
      h := NewHistory(addr, signKey, snaps);
      Set(id, h);
      r := Pass;
    }

    /**
     `GetObservedSTRs`: the STRs of epochs `startEpoch..endEpoch` of one
     directory. An unknown directory, an end beyond the verified epoch or a
     start after the end is an error. Otherwise the k-th entry is what the
     table holds for epoch `startEpoch + k`, nil where it holds nothing; in
     a gap-free history there is no nil.
     */
    method GetObservedSTRs(req: AuditingRequest) returns (resp: Response<Option<DirStr>>)
      requires Valid()
      ensures req.dirInitStrHash !in histories ==> resp == ErrorResponse(ReqUnknownDirectory)
      ensures req.dirInitStrHash in histories ==>
                var h := histories[req.dirInitStrHash];
                && (req.endEpoch > h.verified.epoch || req.startEpoch > req.endEpoch ==>
                      resp == ErrorResponse(ErrMalformedMessage))
                && (req.startEpoch <= req.endEpoch <= h.verified.epoch ==>
                      && resp.StrHistoryRange?
                      && |resp.strs| == req.endEpoch - req.startEpoch + 1
                      && (forall k :: 0 <= k < |resp.strs| ==>
                            resp.strs[k] == if req.startEpoch + k in h.snapshots
                                            then Some(h.snapshots[req.startEpoch + k]) else None)
                      && (forall k :: 0 <= k < |resp.strs| && resp.strs[k].Some? ==>
                            resp.strs[k].value.epoch == req.startEpoch + k)
                      && (h.Gapless() ==> forall k :: 0 <= k < |resp.strs| ==> resp.strs[k].Some?))
    {
      var h, ok := Get(req.dirInitStrHash);
      if !ok {
        return ErrorResponse(ReqUnknownDirectory);
      }
      if req.endEpoch > h.verified.epoch || req.startEpoch > req.endEpoch {
        return ErrorResponse(ErrMalformedMessage);
      }
      var strs: seq<Option<DirStr>> := [];
      var ep := req.startEpoch;
      while ep <= req.endEpoch
        invariant req.startEpoch <= ep <= req.endEpoch + 1
        invariant |strs| == ep - req.startEpoch
        invariant forall k :: 0 <= k < |strs| ==>
                    strs[k] == if req.startEpoch + k in h.snapshots
                               then Some(h.snapshots[req.startEpoch + k]) else None
      {
        var str := if ep in h.snapshots then Some(h.snapshots[ep]) else None;
        strs := strs + [str];
        ep := ep + 1;
      }
      resp := StrHistoryRange(strs);
    }
  }
}
