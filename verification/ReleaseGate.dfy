/**
 * The guard around the three release paths and the one audit row per attempt.
 */
module ReleaseGate {
  import opened Bytes
  import opened Policies
  import opened Shares
  import opened Gate
  import opened ReleaseLaws

  datatype AuditRow = AuditRow(path: Path, status: Status, released: bool, reason: Option<Reason>, operator: string)

  datatype Decision = Decision(allowed: bool, status: Status, key: Option<string>)

  /** One row more: which path decided, on what status, whether a key left, and for whom. */
  predicate Recorded(before: seq<AuditRow>, after: seq<AuditRow>, path: Path, operator: string, decision: Decision) {
    && |after| == |before| + 1 && before <= after
    && after[|before|].path == path && after[|before|].operator == operator
    && after[|before|].status == decision.status && after[|before|].released == decision.allowed
    && (decision.allowed <==> after[|before|].reason.None?)
  }

  /** The refusal of a presented share, before any record is read. */
  predicate RefusesShare(before: seq<AuditRow>, after: seq<AuditRow>, s2: string, decision: Decision) {
    && decision.status.NotEvaluated? && |after| > |before|
    && after[|before|].reason == Some(if s2 == "" then ShareMissing else ShareMalformed)
  }

  class AuditTrail {
    var rows: seq<AuditRow>
    var inserts: nat                       // inserts attempted, successful or not

    constructor ()
      ensures rows == [] && inserts == 0
    {
      rows, inserts := [], 0;
    }

    /** `_finish`: the audit row first, the decision after it. */
    method Finish(path: Path, status: Status, ending: Ending, operator: string, insertWorks: bool)
      returns (decision: Decision)
      requires !ending.Errors?
      modifies this
      ensures inserts == old(inserts) + 1
      ensures rows == if insertWorks
                      then old(rows) + [AuditRow(path, status, ending.Released?,
                                                 if ending.Denied? then Some(ending.reason) else None, operator)]
                      else old(rows)
      ensures decision == Decision(ending.Released? && insertWorks, status,
                                   if ending.Released? && insertWorks then Some(ending.key) else None)
    {
      inserts := inserts + 1;
      if insertWorks {
        rows := rows + [AuditRow(path, status, ending.Released?,
                                 if ending.Denied? then Some(ending.reason) else None, operator)];
      } else if ending.Released? {
        return Decision(false, status, None);            // audit_unavailable
      }
      return Decision(ending.Released?, status, if ending.Released? then Some(ending.key) else None);
    }

    /** `_guarded`: an unmet precondition before any record is read, an
        exception after it; either way exactly one audit insert. */
    method Guarded(path: Path, unmet: Option<Reason>, resolved: Lookup<Selection>, decide: Selection -> Ending,
                   operator: string, insertWorks: bool)
      returns (decision: Decision)
      modifies this
      ensures inserts == old(inserts) + 1
      ensures decision.allowed <==>
        insertWorks && unmet.None? && resolved.Present? && decide(resolved.value).Released?
      ensures decision.allowed ==> decision.key == Some(decide(resolved.value).key)
      ensures !decision.allowed ==> decision.key.None?
      ensures unmet.Some? ==> decision.status == NotEvaluated
      ensures unmet.None? && !resolved.Present? ==> decision.status == Unknown
      ensures unmet.None? && resolved.Present? ==> decision.status == resolved.value.status
      ensures !insertWorks ==> rows == old(rows)
      ensures insertWorks ==>
        && Recorded(old(rows), rows, path, operator, decision)
        && var row := rows[|old(rows)|];
        && (unmet.Some? ==> row.reason == unmet)
        && (unmet.None? && (!resolved.Present? || decide(resolved.value).Errors?) ==> row.reason == Some(InternalError))
        && (unmet.None? && resolved.Present? && decide(resolved.value).Denied? ==>
              row.reason == Some(decide(resolved.value).reason))
    {
      if unmet.Some? {
        decision := Finish(path, NotEvaluated, Denied(unmet.value), operator, insertWorks);
        return;
      }
      if !resolved.Present? {
        decision := Finish(path, Unknown, Denied(InternalError), operator, insertWorks);
        return;
      }
      var ending := decide(resolved.value);
      decision := Finish(path, resolved.value.status,
                         if ending.Errors? then Denied(InternalError) else ending, operator, insertWorks);
    }

    /** `release_standard`. */
    method ReleaseStandard(site: Site, s2: string, resolved: Lookup<Selection>, insertWorks: bool)
      returns (decision: Decision)
      modifies this
      ensures inserts == old(inserts) + 1
      ensures if insertWorks then Recorded(old(rows), rows, StandardPath, "", decision) else rows == old(rows)
      ensures insertWorks && !IsHexShare(s2, '2', 64) ==> RefusesShare(old(rows), rows, s2, decision)
      ensures decision.allowed <==>
        insertWorks && IsHexShare(s2, '2', 64) && resolved.Present? && StandardMayRelease(site, s2, resolved.value)
      ensures decision.allowed ==> decision.key.Some?
      // in terms of the stored rows: share 1 and s2, in the policy's or the latest record's mode
      ensures resolved.Present? && Authentic(resolved.value) ==>
        && var policy := resolved.value.policy.value;
        && (decision.allowed <==>
              insertWorks && IsHexShare(s2, '2', 64) && policy.unlockTime <= site.now
              && SomeOwnerGives(site, policy.mode, policy.commitment, [s2]))
        && (decision.allowed ==> exists row :: OwnerGives(site, policy.mode, policy.commitment, [s2], row, decision.key.value))
      ensures resolved.Present? && IsLegacy(site, resolved.value) ==>
        && (decision.allowed <==>
              && insertWorks && IsHexShare(s2, '2', 64)
              && (site.latestMode.Present? || site.latestMode.Absent?) && site.latestCommitment.Present? && UnlockReached(site)
              && SomeOwnerGives(site, RecordMode(site), site.latestCommitment.value, [s2]))
        && (decision.allowed ==>
              exists row :: OwnerGives(site, RecordMode(site), site.latestCommitment.value, [s2], row, decision.key.value))
      ensures decision.allowed && Authentic(resolved.value) ==>
        && resolved.value.policy.value.unlockTime <= site.now
        && site.commits(decision.key.value, resolved.value.policy.value.commitment)
      ensures decision.allowed && !Authentic(resolved.value) ==>
        && site.CommitmentOf(resolved.value).Present?
        && site.commits(decision.key.value, site.CommitmentOf(resolved.value).value)
    {
      decision := Guarded(StandardPath, PresentedProblem(s2), resolved, found => DecideStandard(site, s2, found), "", insertWorks);
      if resolved.Present? {
        StandardIsExact(site, s2, resolved.value);
        if Authentic(resolved.value) { StandardByPolicy(site, s2, resolved.value); }
        if IsLegacy(site, resolved.value) { StandardByLegacy(site, s2, resolved.value); }
      }
      hide DecideStandard, StandardMayRelease, OwnerGives;
    }

    /** `release_timelock`. */
    method ReleaseTimelock(site: Site, s2: string, resolved: Lookup<Selection>, insertWorks: bool)
      returns (decision: Decision)
      modifies this
      ensures inserts == old(inserts) + 1
      ensures if insertWorks then Recorded(old(rows), rows, TimelockPath, "", decision) else rows == old(rows)
      ensures insertWorks && !IsHexShare(s2, '2', 64) ==> RefusesShare(old(rows), rows, s2, decision)
      ensures decision.allowed <==>
        insertWorks && IsHexShare(s2, '2', 64) && resolved.Present? && TimelockMayRelease(site, s2, resolved.value)
      ensures decision.allowed ==>
        && decision.key.Some?
        && site.commits(decision.key.value, resolved.value.policy.value.commitment)
        && resolved.value.policy.value.unlockTime <= site.stamp.value.genTime - site.stamp.value.accuracy
        && exists s3 ::
             NewestIs(site.envelopes, s3) && TimelockGives(site, resolved.value.policy.value, s2, s3, decision.key.value)
    {
      decision := Guarded(TimelockPath, PresentedProblem(s2), resolved, found => DecideTimelock(site, s2, found), "", insertWorks);
      if resolved.Present? {
        TimelockIsExact(site, s2, resolved.value);
        TimelockReleases(site, s2, resolved.value);
      }
    }

    /** `release_admin`, on the stripped reason and the operator name (blank when over-long). */
    method ReleaseAdmin(site: Site, reason: string, operator: string, shares: seq<StoredShare>,
                        resolved: Lookup<Selection>, insertWorks: bool)
      returns (decision: Decision)
      modifies this
      ensures inserts == old(inserts) + 1
      ensures if insertWorks then Recorded(old(rows), rows, AdminPath, operator, decision) else rows == old(rows)
      ensures decision.allowed <==>
        insertWorks && resolved.Present? && AdminMayRelease(site, reason, operator, shares, resolved.value)
      ensures decision.allowed ==> decision.key.Some? && operator != ""
      ensures decision.allowed && Authentic(resolved.value) ==>
        site.commits(decision.key.value, resolved.value.policy.value.commitment)
      ensures resolved.Present? && Authentic(resolved.value) ==>
        && var policy := resolved.value.policy.value;
        && (decision.allowed <==>
              insertWorks && operator != "" && reason != "" && exists other, s4, key :: PairGives(site, policy, shares, other, s4, key))
        && (decision.allowed ==> exists other, s4 :: PairGives(site, policy, shares, other, s4, decision.key.value))
    {
      decision := Guarded(AdminPath, None, resolved, found => DecideAdmin(site, reason, operator, shares, found),
                          operator, insertWorks);
      if resolved.Present? {
        AdminIsExact(site, reason, operator, shares, resolved.value);
        if Authentic(resolved.value) { AdminByPolicy(site, reason, operator, shares, resolved.value); }
      }
    }
  }
}
