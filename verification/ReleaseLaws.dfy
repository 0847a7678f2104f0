/**
 * The three release paths in terms of the stored rows and the outside functions alone:
 * which shares are recombined in which mode, what each path releases and why it denies.
 */
module ReleaseLaws {
  import opened Bytes
  import opened Text
  import opened Policies
  import opened Shares
  import opened Gate

  // ---------- the documented table ----------

  /** The table row by row: no record, legacy, unverifiable, invalid, expired, verified, unreadable. */
  lemma TableIsAsDocumented(policy: Policy, path: Path, requirePolicy: bool)
    ensures Table(path, Selection(RecordMissing, None, false), false) == (if path.AdminPath? then Flagged else Deny)
    ensures forall status | status in {Legacy, Unverifiable} ::
      Table(path, Selection(status, None, false), false)
      == match path case StandardPath => LegacyChecks case TimelockPath => Deny case AdminPath => Flagged
    ensures forall status | status in {RecordMissing, Legacy, Unverifiable} ::
      Table(path, Selection(status, None, false), true) == Deny && Table(path, Selection(status, None, true), requirePolicy) == Deny
    ensures forall status, p, enrolled | status in {Invalid, RecordUnreadable} ::
      Table(path, Selection(status, p, enrolled), requirePolicy) == Deny
    ensures Table(path, Selection(Expired, Some(policy), false), requirePolicy)
      == match path case StandardPath => PolicyValues case TimelockPath => Deny case AdminPath => Override
    ensures Table(path, Selection(Verified, Some(policy), false), requirePolicy)
      == match path case StandardPath => PolicyValues case TimelockPath => TsaVerified case AdminPath => Override
  {
  }

  ghost predicate IsHexText(text: string, prefix: char, longest: nat, digits: string) {
    && text == [prefix, '-'] + digits && 1 <= |digits| <= longest
    && forall i | 0 <= i < |digits| :: '0' <= digits[i] <= '9' || 'a' <= digits[i] <= 'f'
  }

  /** What a presented or unwrapped share looks like. */
  lemma HexShareMeans(text: string, prefix: char, longest: nat)
    ensures IsHexShare(text, prefix, longest) <==>
      exists digits: string :: IsHexText(text, prefix, longest, digits)
  {
    if IsHexShare(text, prefix, longest) {
      var digits := text[2..];
      assert text == [prefix, '-'] + digits;
      forall i | 0 <= i < |digits| ensures '0' <= digits[i] <= '9' || 'a' <= digits[i] <= 'f' {
        assert text[i + 2] in "0123456789abcdef";
      }
      assert IsHexText(text, prefix, longest, digits);
    }
    if exists digits: string :: IsHexText(text, prefix, longest, digits) {
      var digits: string :| IsHexText(text, prefix, longest, digits);
      forall i | 2 <= i < |text| ensures text[i] in "0123456789abcdef" {
        HexDigitIs(digits[i - 2]);
      }
    }
  }

  lemma HexDigitIs(c: char)
    requires '0' <= c <= '9' || 'a' <= c <= 'f'
    ensures c in "0123456789abcdef"
  {
    var digits := "0123456789abcdef";
    if c <= '9' {
      assert digits[c as int - '0' as int] == c;
    } else {
      assert digits[c as int - 'a' as int + 10] == c;
    }
  }

  // ---------- what is recombined ----------

  /** A stored share of slot 1 recombines with the presented ones to a committed key. */
  ghost predicate OwnerGives(site: Site, mode: Mode, commitment: string, presented: seq<string>, row: StoredShare, key: string) {
    && site.rows.Present? && row in site.rows.value && row.index == 1 && "1-" <= row.data
    && site.recover(mode, [row.data] + presented) == Some(key) && site.commits(key, commitment)
  }

  lemma OwnerHitsAre(site: Site, mode: Mode, commitment: string, presented: seq<string>, row: StoredShare)
    requires |presented| == 1 || mode.Strict?
    ensures OwnerHits(site, mode, commitment, presented, row) <==>
      exists key :: OwnerGives(site, mode, commitment, presented, row, key)
  {
    assert Decimal(1) == "1";
    if OwnerHits(site, mode, commitment, presented, row) {
      assert OwnerGives(site, mode, commitment, presented, row, site.recover(mode, [row.data] + presented).value);
    }
  }

  /** The released key is what the named row gives. */
  lemma BestOwnerGives(site: Site, mode: Mode, commitment: string, generation: nat, presented: seq<string>, ending: Ending)
    requires |presented| == 1 || mode.Strict?
    requires ReleasesBestOwner(site, mode, commitment, generation, presented, ending)
    ensures OwnerGives(site, mode, commitment, presented, ending.used[0], ending.key)
  {
    OwnerHitsAre(site, mode, commitment, presented, ending.used[0]);
  }

  ghost predicate SomeOwnerGives(site: Site, mode: Mode, commitment: string, presented: seq<string>) {
    exists row, key :: OwnerGives(site, mode, commitment, presented, row, key)
  }

  lemma SomeOwnerHits(site: Site, mode: Mode, commitment: string, presented: seq<string>)
    requires |presented| == 1 || mode.Strict?
    ensures (exists row :: OwnerHits(site, mode, commitment, presented, row)) <==> SomeOwnerGives(site, mode, commitment, presented)
  {
    hide OwnerHits, OwnerGives;
    if row :| OwnerHits(site, mode, commitment, presented, row) {
      OwnerHitsAre(site, mode, commitment, presented, row);
    }
    if row, key :| OwnerGives(site, mode, commitment, presented, row, key) {
      OwnerHitsAre(site, mode, commitment, presented, row);
    }
  }

  // ---------- standard path ----------

  /** With a verified or expired policy: exactly when its time has come and a stored share 1
      recombines with the presented s2, in the policy's mode, to the committed key. */
  lemma StandardByPolicy(site: Site, s2: string, found: Selection)
    requires (found.status.Verified? || found.status.Expired?) && found.policy.Some?
    ensures var policy, ending := found.policy.value, DecideStandard(site, s2, found);
      && (ending.Released? <==>
            policy.unlockTime <= site.now && SomeOwnerGives(site, policy.mode, policy.commitment, [s2]))
      && (ending.Released? ==>
            |ending.used| == 1 && OwnerGives(site, policy.mode, policy.commitment, [s2], ending.used[0], ending.key))
  {
    hide DecideStandard, OwnerHits, OwnerGives, ReleasesBestOwner, StandardMayRelease, SomeOwnerGives;
    var policy, ending := found.policy.value, DecideStandard(site, s2, found);
    StandardIsExact(site, s2, found);
    PolicyMeans(site, s2, found);
    if ending.Released? {
      BestOwnerGives(site, policy.mode, policy.commitment, policy.generation, [s2], ending);
      OneUsed(site, policy.mode, policy.commitment, policy.generation, [s2], ending);
    }
  }

  lemma PolicyMeans(site: Site, s2: string, found: Selection)
    requires (found.status.Verified? || found.status.Expired?) && found.policy.Some?
    ensures var policy := found.policy.value;
      StandardMayRelease(site, s2, found) <==>
        policy.unlockTime <= site.now && SomeOwnerGives(site, policy.mode, policy.commitment, [s2])
  {
    hide OwnerHits, SomeOwnerGives;
    SomeOwnerHits(site, found.policy.value.mode, found.policy.value.commitment, [s2]);
  }

  lemma OneUsed(site: Site, mode: Mode, commitment: string, generation: nat, presented: seq<string>, ending: Ending)
    requires ReleasesBestOwner(site, mode, commitment, generation, presented, ending)
    ensures ending.Released? && |ending.used| == 1
  {
  }

  /** The record is one that the v1.0.1 checks decide about. */
  predicate IsLegacy(site: Site, found: Selection) {
    && (found.status.Legacy? || found.status.Unverifiable? || found.status.NotEvaluated? || found.status.Unknown?)
    && !found.enrolled && !site.requirePolicy
  }

  /** The latest record's unlock time: none, or one that has come. */
  predicate UnlockReached(site: Site) {
    || site.latestUnlock.Absent?
    || (site.latestUnlock.Present? && site.latestUnlock.value.Some? && site.latestUnlock.value.value <= site.now)
  }

  /** The latest record's mode, standard without one. */
  function RecordMode(site: Site): Mode {
    if site.latestMode.Present? then site.latestMode.value else Mode.Standard
  }

  lemma LegacyMeans(site: Site, s2: string, found: Selection)
    requires IsLegacy(site, found)
    ensures StandardMayRelease(site, s2, found) <==>
      && (site.latestMode.Present? || site.latestMode.Absent?) && site.latestCommitment.Present? && UnlockReached(site)
      && SomeOwnerGives(site, RecordMode(site), site.latestCommitment.value, [s2])
  {
    hide OwnerHits, SomeOwnerGives;
    assert Table(StandardPath, found, site.requirePolicy) == LegacyChecks && LegacyMode(site, found) == RecordMode(site);
    if site.latestCommitment.Present? {
      assert StandardMayRelease(site, s2, found) <==>
        LegacyChecksPass(site, found)
        && exists row :: OwnerHits(site, RecordMode(site), site.latestCommitment.value, [s2], row);
      SomeOwnerHits(site, RecordMode(site), site.latestCommitment.value, [s2]);
    }
  }

  /** Without an authenticated policy: the latest record's own mode (standard without one),
      unlock time and commitment, each read without failure, and the commitment required. */
  lemma StandardByLegacy(site: Site, s2: string, found: Selection)
    requires IsLegacy(site, found)
    ensures var ending := DecideStandard(site, s2, found);
      && (ending.Released? <==>
            && (site.latestMode.Present? || site.latestMode.Absent?) && site.latestCommitment.Present? && UnlockReached(site)
            && SomeOwnerGives(site, RecordMode(site), site.latestCommitment.value, [s2]))
      && (ending.Released? ==>
            |ending.used| == 1
            && OwnerGives(site, RecordMode(site), site.latestCommitment.value, [s2], ending.used[0], ending.key))
  {
    hide DecideStandard, OwnerHits, OwnerGives, ReleasesBestOwner, StandardMayRelease, SomeOwnerGives;
    var ending := DecideStandard(site, s2, found);
    StandardIsExact(site, s2, found);
    LegacyMeans(site, s2, found);
    if ending.Released? {
      BestOwnerGives(site, RecordMode(site), site.latestCommitment.value, 0, [s2], ending);
      OneUsed(site, RecordMode(site), site.latestCommitment.value, 0, [s2], ending);
    }
  }

  // ---------- time-locked path ----------

  /** The newest envelope that authenticates holds `s3`. */
  ghost predicate NewestIs(envelopes: seq<Option<string>>, s3: string) {
    exists i :: 0 <= i < |envelopes| && envelopes[i] == Some(s3) && forall k | 0 <= k < i :: envelopes[k].None?
  }

  lemma {:induction false} FirstAuthenticIs(envelopes: seq<Option<string>>, s3: string)
    ensures FirstAuthentic(envelopes) == Some(s3) <==> NewestIs(envelopes, s3)
  {
    if envelopes != [] {
      var rest := envelopes[1..];
      FirstAuthenticIs(rest, s3);
      if NewestIs(rest, s3) && envelopes[0].None? {
        var i :| 0 <= i < |rest| && rest[i] == Some(s3) && forall k | 0 <= k < i :: rest[k].None?;
        assert envelopes[i + 1] == Some(s3) && forall k | 0 < k < i + 1 :: envelopes[k] == rest[k - 1];
      }
      if NewestIs(envelopes, s3) && envelopes[0].None? {
        var i :| 0 <= i < |envelopes| && envelopes[i] == Some(s3) && forall k | 0 <= k < i :: envelopes[k].None?;
        assert rest[i - 1] == Some(s3) && forall k | 0 <= k < i - 1 :: rest[k] == envelopes[k + 1];
      }
    }
  }

  /** The shares of the time-locked path: s2 and s3, in strict mode with a stored share 1. */
  ghost predicate TimelockGives(site: Site, policy: Policy, s2: string, s3: string, key: string) {
    if policy.mode.Strict? then exists row :: OwnerGives(site, Strict, policy.commitment, [s2, s3], row, key)
    else site.recover(Mode.Standard, [s2, s3]) == Some(key) && site.commits(key, policy.commitment)
  }

  /** Exactly what a time-locked release needs. */
  lemma TimelockReleases(site: Site, s2: string, found: Selection)
    ensures var ending := DecideTimelock(site, s2, found);
      && (ending.Released? <==>
            && found.status.Verified? && found.policy.Some? && !site.configMissing && site.hasWrapped == Present(true)
            && var policy := found.policy.value;
            && policy.unlockTime <= site.now && site.stamp.Some?
            && policy.unlockTime <= site.stamp.value.genTime - site.stamp.value.accuracy
            && site.digestHolds == Present(true) && (site.masterKey.Present? || site.masterKey.Absent?)
            && exists s3, key :: NewestIs(site.envelopes, s3) && IsHexShare(s3, '3', 128) && TimelockGives(site, policy, s2, s3, key))
      && (ending.Released? ==>
            exists s3 :: NewestIs(site.envelopes, s3) && TimelockGives(site, found.policy.value, s2, s3, ending.key))
  {
    TimelockIsExact(site, s2, found);
    if found.status.Verified? && found.policy.Some? {
      var policy := found.policy.value;
      forall s3 ensures FirstAuthentic(site.envelopes) == Some(s3) <==> NewestIs(site.envelopes, s3) {
        FirstAuthenticIs(site.envelopes, s3);
      }
      if FirstAuthentic(site.envelopes).Some? {
        var s3 := FirstAuthentic(site.envelopes).value;
        TimelockHitsAre(site, policy, s2, s3);
        TimelockKey(site, s2, found, s3);
      }
    }
    hide DecideTimelock, FirstAuthentic, NewestIs, IsHexShare, TimelockGives, TimelockHits, ReleasesBestOwner;
  }

  lemma TimelockHitsAre(site: Site, policy: Policy, s2: string, s3: string)
    ensures TimelockHits(site, policy, s2, s3) <==> exists key :: TimelockGives(site, policy, s2, s3, key)
  {
    if policy.mode.Strict? {
      SomeOwnerHits(site, Strict, policy.commitment, [s2, s3]);
      if row, key :| OwnerGives(site, Strict, policy.commitment, [s2, s3], row, key) {
        assert TimelockGives(site, policy, s2, s3, key);
      }
    } else if site.recover(Mode.Standard, [s2, s3]).Some? {
      var key := site.recover(Mode.Standard, [s2, s3]).value;
      assert TimelockGives(site, policy, s2, s3, key) <==> site.commits(key, policy.commitment);
    }
  }

  lemma TimelockKey(site: Site, s2: string, found: Selection, s3: string)
    requires found.policy.Some? && FirstAuthentic(site.envelopes) == Some(s3)
    ensures var ending := DecideTimelock(site, s2, found);
      ending.Released? ==> TimelockGives(site, found.policy.value, s2, s3, ending.key)
  {
    var ending, policy := DecideTimelock(site, s2, found), found.policy.value;
    TimelockIsExact(site, s2, found);
    if ending.Released? {
      if policy.mode.Strict? {
        BestOwnerGives(site, Strict, policy.commitment, policy.generation, [s2, s3], ending);
      } else {
        FirstMatchIsFirst([Attempt([], [s2, s3])], site.RecoverBy(policy.mode), site.CommitsTo(policy.commitment));
      }
    }
  }

  // ---------- admin path ----------

  /** A stored s4 and another stored share, each with its slot's prefix, in the policy's mode. */
  ghost predicate PairGives(site: Site, policy: Policy, rows: seq<StoredShare>, other: StoredShare, s4: StoredShare, key: string) {
    && s4 in rows && s4.index == 4 && "4-" <= s4.data
    && other in rows && other.index != 4 && Decimal(other.index) + "-" <= other.data
    && site.recover(policy.mode, [other.data, s4.data]) == Some(key) && site.commits(key, policy.commitment)
  }

  lemma PairHitsAre(site: Site, policy: Policy, rows: seq<StoredShare>, other: StoredShare, s4: StoredShare)
    ensures PairHits(site, policy, rows, other, s4) <==> exists key :: PairGives(site, policy, rows, other, s4, key)
  {
    assert Decimal(4) == "4";
    if PairHits(site, policy, rows, other, s4) {
      assert PairGives(site, policy, rows, other, s4, site.recover(policy.mode, [other.data, s4.data]).value);
    }
  }

  /** With an authenticated policy: exactly when operator and reason are given and some pair
      recombines to the committed key, which is the key released. */
  lemma AdminByPolicy(site: Site, reason: string, operator: string, rows: seq<StoredShare>, found: Selection)
    requires (found.status.Verified? || found.status.Expired?) && found.policy.Some?
    ensures var policy, ending := found.policy.value, DecideAdmin(site, reason, operator, rows, found);
      && (ending.Released? <==>
            operator != "" && reason != "" && exists other, s4, key :: PairGives(site, policy, rows, other, s4, key))
      && (ending.Released? ==>
            |ending.used| == 2 && PairGives(site, policy, rows, ending.used[0], ending.used[1], ending.key))
  {
    hide DecideAdmin, AdminShares, OtherShares, PairHits, PairGives, AdminReleasesBest;
    var policy, ending := found.policy.value, DecideAdmin(site, reason, operator, rows, found);
    AdminIsExact(site, reason, operator, rows, found);
    if ending.Released? { AdminKey(site, reason, operator, rows, found); }
    if other, s4, key :| PairGives(site, policy, rows, other, s4, key) {
      PairHitsAre(site, policy, rows, other, s4);
      HitPools(site, policy, rows, other, s4);
    }
  }

  lemma HitPools(site: Site, policy: Policy, rows: seq<StoredShare>, other: StoredShare, s4: StoredShare)
    requires PairHits(site, policy, rows, other, s4)
    ensures AdminShares(rows).Usable? && OtherShares(rows).Usable?
  {
    var admins := Filter(rows, (row: StoredShare) => row.index == ADMIN_SLOT && row.data != "");
    var others := Filter(rows, (row: StoredShare) => row.index != ADMIN_SLOT && row.data != "");
    assert s4 in Filter(admins, row => IsUsable(row));
    assert other in Filter(others, row => IsUsable(row));
  }

  lemma AdminKey(site: Site, reason: string, operator: string, rows: seq<StoredShare>, found: Selection)
    requires Authentic(found) && DecideAdmin(site, reason, operator, rows, found).Released?
    ensures var policy, ending := found.policy.value, DecideAdmin(site, reason, operator, rows, found);
      |ending.used| == 2 && PairGives(site, policy, rows, ending.used[0], ending.used[1], ending.key)
  {
    var policy, ending := found.policy.value, DecideAdmin(site, reason, operator, rows, found);
    AdminIsExact(site, reason, operator, rows, found);
    var admins, others := AdminShares(rows).shares, OtherShares(rows).shares;
    AdminSearchIsExact(admins, others, policy.generation, site.RecoverBy(policy.mode), site.CommitsTo(policy.commitment));
    PairHitsAre(site, policy, rows, ending.used[0], ending.used[1]);
  }

  lemma FlaggedIs(site: Site, reason: string, operator: string, rows: seq<StoredShare>, found: Selection)
    requires IsLegacy(site, found) && DecideAdmin(site, reason, operator, rows, found).Released?
    ensures operator != "" && reason != ""
    ensures DecideAdmin(site, reason, operator, rows, found) == AdminUnauthenticated(site, found, rows)
  {
    hide AdminShares, OtherShares, FilledSlots, AdminUnauthenticated;
  }

  /** Flagged: s4 and the lowest other filled slot of generation 0, recombined in the latest
      record's mode, without a commitment. */
  lemma AdminFlagged(site: Site, reason: string, operator: string, rows: seq<StoredShare>, found: Selection)
    requires IsLegacy(site, found) && DecideAdmin(site, reason, operator, rows, found).Released?
    ensures var ending := DecideAdmin(site, reason, operator, rows, found);
      && operator != "" && reason != "" && |ending.used| == 2
      && ending.used[0] in rows && ending.used[1] in rows
      && ending.used[0].generation == 0 == ending.used[1].generation && ending.used[0].index != 4 == ending.used[1].index
      && site.recover(RecordMode(site), [ending.used[0].data, ending.used[1].data]) == Some(ending.key)
  {
    FlaggedIs(site, reason, operator, rows, found);
    hide DecideAdmin, AdminUnauthenticated, GenerationZeroShares, IsUsable;
    UnauthenticatedIs(site, found, rows);
    GenerationZeroIs(rows);
  }

  lemma UnauthenticatedIs(site: Site, found: Selection, rows: seq<StoredShare>)
    requires IsLegacy(site, found) && AdminUnauthenticated(site, found, rows).Released?
    ensures var ending, used := AdminUnauthenticated(site, found, rows), GenerationZeroShares(rows).0;
      && GenerationZeroShares(rows).1.None? && |used| == 2 && ending.used == used
      && site.recover(RecordMode(site), [used[0].data, used[1].data]) == Some(ending.key)
  {
    hide GenerationZeroShares, IsUsable;
    if GenerationZeroShares(rows).1.None? { GenerationZeroIs(rows); }
  }

  // ---------- why a path denies, check by check ----------

  predicate FilledOwner(rows: seq<StoredShare>) {
    exists row :: row in rows && row.index == 1 && row.data != ""
  }

  predicate UsableOwner(rows: seq<StoredShare>) {
    exists row :: row in rows && row.index == 1 && "1-" <= row.data
  }

  lemma OwnerPoolIs(rows: seq<StoredShare>)
    ensures OwnerShares(rows).Missing? <==> !FilledOwner(rows)
    ensures OwnerShares(rows).Usable? <==> UsableOwner(rows)
  {
    assert Decimal(1) == "1";
    hide Decimal;
    var stored := Filter(rows, (row: StoredShare) => row.index == OWNER_SLOT && row.data != "");
    var usable := Filter(stored, row => IsUsable(row));
    hide Filter;
    if stored != [] { assert stored[0] in stored; }
    if usable != [] { assert usable[0] in usable; }
    if row :| row in rows && row.index == 1 && row.data != "" { assert row in stored; }
    if row :| row in rows && row.index == 1 && "1-" <= row.data { assert row in usable; }
  }

  lemma StandardDenials(site: Site, s2: string, found: Selection)
    requires site.rows.Present?
    ensures var rows, ending := site.rows.value, DecideStandard(site, s2, found);
      && (!FilledOwner(rows) ==> ending == Denied(OwnerShareMissing))
      && (FilledOwner(rows) && !UsableOwner(rows) ==> ending == Denied(OwnerShareMalformed))
      && (UsableOwner(rows) && (found.status.Verified? || found.status.Expired?) && found.policy.Some? ==>
            (site.now < found.policy.value.unlockTime ==> ending == Denied(BeforeUnlock)))
  {
    OwnerPoolIs(site.rows.value);
    hide OwnerShares, FilledOwner, UsableOwner;
  }

  /** The v1.0.1 checks in their order: mode, unlock time, commitment. */
  lemma LegacyDenials(site: Site, s2: string, found: Selection)
    requires IsLegacy(site, found) && site.rows.Present? && UsableOwner(site.rows.value)
    ensures var ending := DecideStandard(site, s2, found);
      && (site.latestMode.Unresolvable? ==> ending == Denied(SealModeUnresolvable))
      && (site.latestMode.Present? || site.latestMode.Absent? ==>
            && (site.latestUnlock.Unresolvable? ==> ending == Denied(UnlockTimeUnresolvable))
            && (site.latestUnlock == Present(None) ==> ending == Denied(UnlockTimeInvalid))
            && (site.latestUnlock.Present? && site.latestUnlock.value.Some? && site.now < site.latestUnlock.value.value ==>
                  ending == Denied(BeforeUnlock))
            && (UnlockReached(site) && site.latestCommitment.Unresolvable? ==> ending == Denied(CommitmentUnresolvable))
            && (UnlockReached(site) && site.latestCommitment.Absent? ==> ending == Denied(CommitmentMissing)))
  {
    OwnerPoolIs(site.rows.value);
    hide OwnerShares, UsableOwner, ReleaseMatching;
  }

  /** The time-locked path up to its owner share, in order. */
  lemma TimelockDenials(site: Site, s2: string, found: Selection)
    requires site.rows.Present?
    ensures var rows, ending := site.rows.value, DecideTimelock(site, s2, found);
      && (!found.status.Verified? || found.policy.None? ==> ending == Denied(StatusDenied(found.status)))
      && (found.status.Verified? && found.policy.Some? ==>
            && (site.configMissing ==> ending == Denied(ConfigMissing))
            && (!site.configMissing && found.policy.value.mode.Strict? ==>
                  && (!FilledOwner(rows) ==> ending == Denied(OwnerShareMissing))
                  && (FilledOwner(rows) && !UsableOwner(rows) ==> ending == Denied(OwnerShareMalformed))))
  {
    OwnerPoolIs(site.rows.value);
    hide OwnerShares, FilledOwner, UsableOwner, UnwrapAndCombine;
  }

  /** The owner share that a strict seal needs is there. */
  predicate OwnerReady(site: Site, policy: Policy) {
    policy.mode.Strict? ==> site.rows.Present? && UsableOwner(site.rows.value)
  }

  /** And after it: the envelope, the two clocks, the digest, the key and the envelope's content. */
  lemma TimelockLaterDenials(site: Site, s2: string, found: Selection)
    requires found.status.Verified? && found.policy.Some? && !site.configMissing && OwnerReady(site, found.policy.value)
    ensures var policy, ending := found.policy.value, DecideTimelock(site, s2, found);
      && (site.hasWrapped == Present(false) ==> ending == Denied(WrappedS3Missing))
      && (site.hasWrapped == Present(true) ==>
            && (site.now < policy.unlockTime ==> ending == Denied(BeforeUnlock))
            && (policy.unlockTime <= site.now && site.stamp.None? ==> ending == Denied(TsaFailed))
            && (policy.unlockTime <= site.now && site.stamp.Some?
                && site.stamp.value.genTime - site.stamp.value.accuracy < policy.unlockTime ==>
                  ending == Denied(TsaTimeBeforeUnlock))
            && (TimeHasCome(site, policy) ==>
                  && (!site.digestHolds.Present? ==> ending == Denied(InternalError))
                  && (site.digestHolds == Present(false) ==> ending == Denied(PolicyDigestMismatch))
                  && (site.digestHolds == Present(true) ==>
                        && (site.masterKey.Unresolvable? ==> ending == Denied(KmsUnavailable))
                        && (site.masterKey.Fails? ==> ending == Denied(InternalError))
                        && (site.masterKey.Present? || site.masterKey.Absent? ==>
                              && ((forall i | 0 <= i < |site.envelopes| :: site.envelopes[i].None?) ==> ending == Denied(S3UnwrapFailed))
                              && (forall s3 | NewestIs(site.envelopes, s3) && !IsHexShare(s3, '3', 128) ::
                                    ending == Denied(S3Malformed))))))
  {
    if site.rows.Present? { OwnerPoolIs(site.rows.value); }
    forall s3 ensures FirstAuthentic(site.envelopes) == Some(s3) <==> NewestIs(site.envelopes, s3) {
      FirstAuthenticIs(site.envelopes, s3);
    }
    if FirstAuthentic(site.envelopes).Some? { assert NewestIs(site.envelopes, FirstAuthentic(site.envelopes).value); }
    hide OwnerShares, UsableOwner, FirstAuthentic, IsHexShare, ReleaseMatching;
  }

  predicate TimeHasCome(site: Site, policy: Policy) {
    && policy.unlockTime <= site.now && site.stamp.Some?
    && policy.unlockTime <= site.stamp.value.genTime - site.stamp.value.accuracy
  }

  /** A filled slot 4, or another; a usable one carries its own slot's prefix. */
  predicate FilledAt(rows: seq<StoredShare>, admin: bool) {
    exists row :: row in rows && (row.index == 4) == admin && row.data != ""
  }

  predicate UsableAt(rows: seq<StoredShare>, admin: bool) {
    exists row :: row in rows && (row.index == 4) == admin && Decimal(row.index) + "-" <= row.data
  }

  lemma AdminPoolIs(rows: seq<StoredShare>)
    ensures (AdminShares(rows).Missing? <==> !FilledAt(rows, true)) && (AdminShares(rows).Usable? <==> UsableAt(rows, true))
    ensures (OtherShares(rows).Missing? <==> !FilledAt(rows, false)) && (OtherShares(rows).Usable? <==> UsableAt(rows, false))
  {
    PoolIs(rows, true);
    PoolIs(rows, false);
  }

  lemma PoolIs(rows: seq<StoredShare>, admin: bool)
    ensures var pool := if admin then AdminShares(rows) else OtherShares(rows);
      (pool.Missing? <==> !FilledAt(rows, admin)) && (pool.Usable? <==> UsableAt(rows, admin))
  {
    var stored := if admin then Filter(rows, (row: StoredShare) => row.index == ADMIN_SLOT && row.data != "")
                  else Filter(rows, (row: StoredShare) => row.index != ADMIN_SLOT && row.data != "");
    var usable := Filter(stored, row => IsUsable(row));
    if stored != [] { assert stored[0] in stored; }
    if usable != [] { assert usable[0] in usable; }
    if row :| row in rows && (row.index == 4) == admin && row.data != "" { assert row in stored; }
    if row :| row in rows && (row.index == 4) == admin && Decimal(row.index) + "-" <= row.data { assert row in usable; }
  }

  /** The admin path up to the policy, in order. */
  lemma AdminDenials(site: Site, reason: string, operator: string, rows: seq<StoredShare>, found: Selection)
    ensures var ending := DecideAdmin(site, reason, operator, rows, found);
      && (operator == "" ==> ending == Denied(OperatorRequired))
      && (operator != "" && reason == "" ==> ending == Denied(ReasonRequired))
      && (operator != "" && reason != "" ==>
            && (|set row | row in rows && row.data != "" :: row.index| < 2 ==> ending == Denied(InsufficientShares))
            && (|set row | row in rows && row.data != "" :: row.index| >= 2 ==>
                  && (!FilledAt(rows, true) ==> ending == Denied(AdminShareMissing))
                  && (FilledAt(rows, true) && !UsableAt(rows, true) ==> ending == Denied(AdminShareMalformed))
                  && (UsableAt(rows, true) && FilledAt(rows, false) && !UsableAt(rows, false) ==>
                        ending == Denied(OtherShareMalformed))))
  {
    AdminPoolIs(rows);
    hide AdminShares, OtherShares, FilledAt, UsableAt, AdminUnauthenticated, ReleaseMatching;
  }
}
