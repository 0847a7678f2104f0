/**
 * The release gate: the three path functions against the decision table of the gate.
 */
module Gate {
  import opened Bytes
  import opened Policies
  import opened Shares

  datatype Path = StandardPath | TimelockPath | AdminPath

  datatype Reason =
    | ShareMissing | ShareMalformed | OwnerShareMissing | OwnerShareMalformed
    | AdminShareMissing | AdminShareMalformed | OtherShareMissing | OtherShareMalformed | InsufficientShares
    | OperatorRequired | ReasonRequired
    | StatusDenied(status: Status) | PolicyUnverifiable | PolicyRequired
    | SealModeUnresolvable | UnlockTimeUnresolvable | UnlockTimeInvalid
    | CommitmentUnresolvable | CommitmentMissing | BeforeUnlock
    | ConfigMissing | WrappedS3Missing | TsaFailed | TsaTimeBeforeUnlock
    | PolicyDigestMismatch | KmsUnavailable | S3UnwrapFailed | S3Malformed
    | RecoveryFailed | CommitmentMismatch | InternalError

  /** How a path function ends; `Errors` is an exception that leaves it. */
  datatype Ending = Released(key: string, used: seq<StoredShare>) | Denied(reason: Reason) | Errors

  /** A lookup in the seal's rows: `Unresolvable` is its ValueError, `Fails` any other exception. */
  datatype Lookup<+T> = Present(value: T) | Absent | Unresolvable | Fails

  /** A TSA token accepted under the pinned profile. */
  datatype Stamp = Stamp(genTime: real, accuracy: real)

  /** Everything outside the gate that an attempt can observe. */
  datatype Site = Site(
    now: real,
    requirePolicy: bool,
    rows: Lookup<seq<StoredShare>>,
    latestMode: Lookup<Mode>, latestUnlock: Lookup<Option<real>>, latestCommitment: Lookup<string>,
    configMissing: bool, hasWrapped: Lookup<bool>, stamp: Option<Stamp>,
    digestHolds: Lookup<bool>, masterKey: Lookup<()>, envelopes: seq<Option<string>>,
    recover: (Mode, seq<string>) -> Option<string>,
    commits: (string, string) -> bool)
  {
    /** `_recover_or_none`: strict uses all shares, standard two. */
    function RecoverBy(mode: Mode): Recover {
      (shares: seq<string>) => recover(mode, if mode.Strict? || |shares| <= 2 then shares else shares[..2])
    }

    function CommitsTo(commitment: string): Matches {
      (key: string) => commits(key, commitment)
    }

    // The latest record's fields: a seal without a record has none of them.

    function ModeOf(found: Selection): Lookup<Mode> {
      if found.status.RecordMissing? && latestMode.Present? then Absent else latestMode
    }

    function UnlockOf(found: Selection): Lookup<Option<real>> {
      if found.status.RecordMissing? && latestUnlock.Present? then Absent else latestUnlock
    }

    function CommitmentOf(found: Selection): Lookup<string> {
      if found.status.RecordMissing? && latestCommitment.Present? then Absent else latestCommitment
    }
  }

  // ---------- the decision table ----------

  /** What the table prescribes for a record on a path. */
  datatype Cell = Deny | LegacyChecks | PolicyValues | TsaVerified | Flagged | Override

  function Table(path: Path, found: Selection, requirePolicy: bool): Cell {
    if found.status.RecordUnreadable? || found.status.Invalid? then Deny
    else if path.TimelockPath? then (if found.status.Verified? && found.policy.Some? then TsaVerified else Deny)
    else if Authentic(found) then (if path.StandardPath? then PolicyValues else Override)
    else if found.enrolled || requirePolicy then Deny
    else if path.AdminPath? then Flagged
    else if found.status.RecordMissing? then Deny else LegacyChecks
  }

  // ---------- shared pieces ----------

  /** `_release_matching`: the first matching attempt, or why none matched. */
  function ReleaseMatching(site: Site, mode: Mode, commitment: string, attempts: seq<Attempt>): Ending {
    match FirstMatch(attempts, site.RecoverBy(mode), site.CommitsTo(commitment))
    case Found(key, used) => Released(key, used)
    case NoMatch(recombined) => Denied(if recombined then CommitmentMismatch else RecoveryFailed)
  }

  /** `_unauthenticated_denial`. */
  function UnauthenticatedDenial(site: Site, found: Selection): Option<Reason> {
    if found.enrolled then Some(PolicyUnverifiable)
    else if site.requirePolicy then Some(PolicyRequired)
    else None
  }

  predicate IsHexShare(text: string, prefix: char, longest: nat) {
    && 3 <= |text| <= longest + 2 && text[0] == prefix && text[1] == '-'
    && forall i | 2 <= i < |text| :: text[i] in "0123456789abcdef"
  }

  /** `presented_s2` on the stripped, lower-cased text: what is wrong with it, if anything. */
  function PresentedProblem(s2: string): Option<Reason> {
    if s2 == "" then Some(ShareMissing) else if !IsHexShare(s2, '2', 64) then Some(ShareMalformed) else None
  }

  // ---------- standard path ----------

  function LegacyMode(site: Site, found: Selection): Mode {
    if site.ModeOf(found).Present? then site.ModeOf(found).value else Mode.Standard
  }

  function StandardLegacy(site: Site, found: Selection, owner: seq<StoredShare>, s2: string): Ending {
    if site.ModeOf(found).Unresolvable? then Denied(SealModeUnresolvable)
    else if site.ModeOf(found).Fails? then Errors
    else if site.UnlockOf(found).Unresolvable? then Denied(UnlockTimeUnresolvable)
    else if site.UnlockOf(found).Fails? then Errors
    else if site.UnlockOf(found).Present? && site.UnlockOf(found).value.None? then Denied(UnlockTimeInvalid)
    else if site.UnlockOf(found).Present? && site.now < site.UnlockOf(found).value.value then Denied(BeforeUnlock)
    else if site.CommitmentOf(found).Unresolvable? then Denied(CommitmentUnresolvable)
    else if site.CommitmentOf(found).Fails? then Errors
    else if site.CommitmentOf(found).Absent? then Denied(CommitmentMissing)
    else ReleaseMatching(site, LegacyMode(site, found), site.CommitmentOf(found).value, OwnerAttempts(owner, 0, [s2]))
  }

  function StandardVerified(site: Site, policy: Policy, owner: seq<StoredShare>, s2: string): Ending {
    if site.now < policy.unlockTime then Denied(BeforeUnlock)
    else ReleaseMatching(site, policy.mode, policy.commitment, OwnerAttempts(owner, policy.generation, [s2]))
  }

  function DecideStandard(site: Site, s2: string, found: Selection): Ending {
    if !site.rows.Present? then Errors
    else match OwnerShares(site.rows.value)
      case Missing => Denied(OwnerShareMissing)
      case Malformed => Denied(OwnerShareMalformed)
      case Usable(owner) =>
        if found.status.RecordUnreadable? || found.status.Invalid? then Denied(StatusDenied(found.status))
        else if Authentic(found) then
          StandardVerified(site, found.policy.value, owner, s2)
        else if UnauthenticatedDenial(site, found).Some? then Denied(UnauthenticatedDenial(site, found).value)
        else StandardLegacy(site, found, owner, s2)
  }

  // ---------- time-locked path ----------

  /** `_unwrap_first` as a value: the newest envelope that authenticates. */
  function FirstAuthentic(envelopes: seq<Option<string>>): Option<string> {
    if envelopes == [] then None
    else if envelopes[0].Some? then envelopes[0]
    else FirstAuthentic(envelopes[1..])
  }

  /** `_unwrap_first`: the loop, with the number of newer envelopes that did not authenticate. */
  method UnwrapFirst(envelopes: seq<Option<string>>) returns (plaintext: Option<string>, skipped: nat)
    ensures plaintext == FirstAuthentic(envelopes)
    ensures skipped <= |envelopes| && forall i | 0 <= i < skipped :: envelopes[i].None?
    ensures if plaintext.Some? then skipped < |envelopes| && envelopes[skipped] == plaintext
            else skipped == |envelopes|
  {
    skipped := 0;
    for k := 0 to |envelopes|
      invariant skipped == k && forall i | 0 <= i < k :: envelopes[i].None?
      invariant FirstAuthentic(envelopes) == FirstAuthentic(envelopes[k..])
    {
      assert envelopes[k..][1..] == envelopes[k + 1..];
      if envelopes[k].Some? {
        return envelopes[k], skipped;
      }
      skipped := skipped + 1;
    }
    return None, skipped;
  }

  function TimelockOwner(site: Site, mode: Mode): Lookup<Pool> {
    if mode.Standard? then Present(Usable([]))
    else if !site.rows.Present? then Fails
    else Present(OwnerShares(site.rows.value))
  }

  /** `_unwrap_and_combine`, after the clock and TSA checks. */
  function UnwrapAndCombine(site: Site, policy: Policy, s2: string, owner: seq<StoredShare>): Ending {
    if !site.digestHolds.Present? then Denied(InternalError)
    else if !site.digestHolds.value then Denied(PolicyDigestMismatch)
    else if site.masterKey.Unresolvable? then Denied(KmsUnavailable)
    else if site.masterKey.Fails? then Denied(InternalError)
    else match FirstAuthentic(site.envelopes)
      case None => Denied(S3UnwrapFailed)
      case Some(s3) =>
        if !IsHexShare(s3, '3', 128) then Denied(S3Malformed)
        else ReleaseMatching(site, policy.mode, policy.commitment, TimelockAttempts(policy, s2, s3, owner))
  }

  function TimelockAttempts(policy: Policy, s2: string, s3: string, owner: seq<StoredShare>): seq<Attempt> {
    if policy.mode.Strict? then OwnerAttempts(owner, policy.generation, [s2, s3]) else [Attempt([], [s2, s3])]
  }

  function DecideTimelock(site: Site, s2: string, found: Selection): Ending {
    if !found.status.Verified? || found.policy.None? then Denied(StatusDenied(found.status))
    else
      var policy := found.policy.value;
      if site.configMissing then Denied(ConfigMissing)
      else match TimelockOwner(site, policy.mode)
        case Present(Missing) => Denied(OwnerShareMissing)
        case Present(Malformed) => Denied(OwnerShareMalformed)
        case Present(Usable(owner)) =>
          if !site.hasWrapped.Present? then Errors
          else if !site.hasWrapped.value then Denied(WrappedS3Missing)
          else if site.now < policy.unlockTime then Denied(BeforeUnlock)
          else if site.stamp.None? then Denied(TsaFailed)
          else if site.stamp.value.genTime - site.stamp.value.accuracy < policy.unlockTime then
            Denied(TsaTimeBeforeUnlock)
          else UnwrapAndCombine(site, policy, s2, owner)
        case Absent => Errors
        case Unresolvable => Errors
        case Fails => Errors
  }

  // ---------- admin path ----------

  function FilledSlots(rows: seq<StoredShare>): set<nat> {
    set row | row in rows && row.data != "" :: row.index
  }

  /** The lowest slot other than the admin slot, among the given rows. */
  function LowestOther(rows: seq<StoredShare>): (low: Option<StoredShare>)
    ensures low.Some? ==> low.value in rows && low.value.index != ADMIN_SLOT
    ensures low.Some? ==> forall row | row in rows && row.index != ADMIN_SLOT :: low.value.index <= row.index
    ensures low.None? ==> forall row | row in rows :: row.index == ADMIN_SLOT
  {
    if rows == [] then None
    else
      var last, low := rows[|rows| - 1], LowestOther(rows[..|rows| - 1]);
      if last.index != ADMIN_SLOT && (low.None? || last.index < low.value.index) then Some(last) else low
  }

  /** `generation_0_admin_shares`: [other, s4], or the v1.1 reason there are none. */
  function GenerationZeroShares(rows: seq<StoredShare>): (seq<StoredShare>, Option<Reason>) {
    var stored := Filter(rows, (row: StoredShare) => row.generation == 0 && row.data != "");
    var admins := Filter(stored, (row: StoredShare) => row.index == ADMIN_SLOT);
    var other := LowestOther(stored);
    if admins == [] then ([], Some(AdminShareMissing))
    else if !IsUsable(admins[|admins| - 1]) then ([], Some(AdminShareMalformed))
    else if other.None? then ([], Some(OtherShareMissing))
    else if !IsUsable(other.value) then ([], Some(OtherShareMalformed))
    else ([other.value, admins[|admins| - 1]], None)
  }

  /** `_admin_unauthenticated`: v1.1 on generation-0 shares, no commitment to check. */
  function AdminUnauthenticated(site: Site, found: Selection, rows: seq<StoredShare>): Ending {
    var (used, problem) := GenerationZeroShares(rows);
    if problem.Some? then Denied(problem.value)
    else if site.ModeOf(found).Unresolvable? then Denied(SealModeUnresolvable)
    else if site.ModeOf(found).Fails? then Errors
    else match site.recover(LegacyMode(site, found), [used[0].data, used[1].data])
      case None => Denied(RecoveryFailed)
      case Some(key) => Released(key, used)
  }

  function DecideAdmin(site: Site, reason: string, operator: string, rows: seq<StoredShare>, found: Selection): Ending {
    if operator == "" then Denied(OperatorRequired)
    else if reason == "" then Denied(ReasonRequired)
    else if |FilledSlots(rows)| < 2 then Denied(InsufficientShares)
    else match AdminShares(rows)
      case Missing => Denied(AdminShareMissing)
      case Malformed => Denied(AdminShareMalformed)
      case Usable(admins) =>
        match OtherShares(rows)
        case Missing => Denied(OtherShareMissing)
        case Malformed => Denied(OtherShareMalformed)
        case Usable(others) =>
          if found.status.RecordUnreadable? || found.status.Invalid? then Denied(StatusDenied(found.status))
          else if Authentic(found) then
            var policy := found.policy.value;
            ReleaseMatching(site, policy.mode, policy.commitment, AdminAttempts(admins, others, policy.generation))
          else if UnauthenticatedDenial(site, found).Some? then Denied(UnauthenticatedDenial(site, found).value)
          else AdminUnauthenticated(site, found, rows)
  }

  // ---------- what each path releases, exactly ----------

  /** A stored owner share, usable and matching the commitment with the presented shares. */
  ghost predicate OwnerHits(site: Site, mode: Mode, commitment: string, presented: seq<string>, row: StoredShare) {
    && site.rows.Present? && row in site.rows.value && row.index == OWNER_SLOT && IsUsable(row)
    && Hits(OwnerAttempt(row, presented), site.RecoverBy(mode), site.CommitsTo(commitment))
  }

  /** The released key comes from the most preferred owner share that matches. */
  ghost predicate ReleasesBestOwner(site: Site, mode: Mode, commitment: string, generation: nat,
                                    presented: seq<string>, ending: Ending)
  {
    && ending.Released? && |ending.used| == 1
    && OwnerHits(site, mode, commitment, presented, ending.used[0])
    && site.RecoverBy(mode)([ending.used[0].data] + presented) == Some(ending.key)
    && forall row | OwnerHits(site, mode, commitment, presented, row) :: Precedes(generation, ending.used[0], row)
  }

  lemma OwnerSharesAre(rows: seq<StoredShare>)
    ensures match OwnerShares(rows)
      case Usable(owner) => forall row :: row in owner <==> row in rows && row.index == OWNER_SLOT && IsUsable(row)
      case _ => forall row | row in rows && row.index == OWNER_SLOT :: !IsUsable(row)
  {
  }

  lemma OwnerReleaseIsExact(site: Site, mode: Mode, commitment: string, generation: nat,
                            presented: seq<string>, owner: seq<StoredShare>)
    requires site.rows.Present? && OwnerShares(site.rows.value) == Usable(owner)
    ensures var ending := ReleaseMatching(site, mode, commitment, OwnerAttempts(owner, generation, presented));
      && (ending.Released? <==> exists row :: OwnerHits(site, mode, commitment, presented, row))
      && (ending.Released? ==> ReleasesBestOwner(site, mode, commitment, generation, presented, ending))
      && (!ending.Released? ==> ending == Denied(
            if exists row :: row in owner && Recombines(OwnerAttempt(row, presented), site.RecoverBy(mode))
            then CommitmentMismatch else RecoveryFailed))
  {
    OwnerSharesAre(site.rows.value);
    OwnerSearchIsExact(owner, generation, presented, site.RecoverBy(mode), site.CommitsTo(commitment));
    var m := FirstMatch(OwnerAttempts(owner, generation, presented), site.RecoverBy(mode), site.CommitsTo(commitment));
    if m.Found? {
      assert OwnerHits(site, mode, commitment, presented, m.used[0]);
    }
  }

  /** The v1.0.1 checks before recombining: mode, unlock time and commitment of the latest record. */
  predicate LegacyChecksPass(site: Site, found: Selection) {
    && (site.ModeOf(found).Present? || site.ModeOf(found).Absent?)
    && (site.UnlockOf(found).Absent? || (site.UnlockOf(found).Present? && site.UnlockOf(found).value.Some?
                                      && site.UnlockOf(found).value.value <= site.now))
    && site.CommitmentOf(found).Present?
  }

  /** Standard path: what it takes to release, both ways. */
  ghost predicate StandardMayRelease(site: Site, s2: string, found: Selection) {
    match Table(StandardPath, found, site.requirePolicy)
    case PolicyValues =>
      var policy := found.policy.value;
      && policy.unlockTime <= site.now
      && exists row :: OwnerHits(site, policy.mode, policy.commitment, [s2], row)
    case LegacyChecks =>
      && LegacyChecksPass(site, found)
      && exists row :: OwnerHits(site, LegacyMode(site, found), site.CommitmentOf(found).value, [s2], row)
    case _ => false
  }

  /** The release the standard path makes, when it makes one. */
  ghost predicate StandardReleasesBest(site: Site, s2: string, found: Selection, ending: Ending) {
    if Authentic(found) then
      var policy := found.policy.value;
      ReleasesBestOwner(site, policy.mode, policy.commitment, policy.generation, [s2], ending)
    else
      site.CommitmentOf(found).Present?
      && ReleasesBestOwner(site, LegacyMode(site, found), site.CommitmentOf(found).value, 0, [s2], ending)
  }

  lemma StandardVerifiedIsExact(site: Site, s2: string, policy: Policy, owner: seq<StoredShare>)
    requires site.rows.Present? && OwnerShares(site.rows.value) == Usable(owner)
    ensures var ending := StandardVerified(site, policy, owner, s2);
      && (ending.Released? <==>
            policy.unlockTime <= site.now && exists row :: OwnerHits(site, policy.mode, policy.commitment, [s2], row))
      && (ending.Released? ==> ReleasesBestOwner(site, policy.mode, policy.commitment, policy.generation, [s2], ending))
  {
    OwnerReleaseIsExact(site, policy.mode, policy.commitment, policy.generation, [s2], owner);
  }

  lemma StandardLegacyIsExact(site: Site, found: Selection, s2: string, owner: seq<StoredShare>)
    requires site.rows.Present? && OwnerShares(site.rows.value) == Usable(owner)
    ensures var ending := StandardLegacy(site, found, owner, s2);
      && (ending.Released? <==>
            && LegacyChecksPass(site, found)
            && exists row :: OwnerHits(site, LegacyMode(site, found), site.CommitmentOf(found).value, [s2], row))
      && (ending.Released? ==>
            ReleasesBestOwner(site, LegacyMode(site, found), site.CommitmentOf(found).value, 0, [s2], ending))
  {
    hide FirstMatch, OwnerAttempts, OwnerShares;
    if LegacyChecksPass(site, found) {
      OwnerReleaseIsExact(site, LegacyMode(site, found), site.CommitmentOf(found).value, 0, [s2], owner);
    }
  }

  lemma NoOwnerNoHit(site: Site, mode: Mode, commitment: string, presented: seq<string>)
    requires !site.rows.Present? || !OwnerShares(site.rows.value).Usable?
    ensures !exists row :: OwnerHits(site, mode, commitment, presented, row)
  {
  }

  /** The standard path releases exactly when the table, the unlock time and some
      stored owner share allow it, and then the most preferred matching one decides. */
  lemma StandardIsExact(site: Site, s2: string, found: Selection)
    ensures var ending := DecideStandard(site, s2, found);
      && (ending.Released? <==> StandardMayRelease(site, s2, found))
      && (ending.Released? ==> StandardReleasesBest(site, s2, found, ending))
  {
    hide FirstMatch, OwnerAttempts, OwnerShares, OwnerHits, ReleasesBestOwner;
    if !site.rows.Present? || !OwnerShares(site.rows.value).Usable? {
      if Authentic(found) {
        NoOwnerNoHit(site, found.policy.value.mode, found.policy.value.commitment, [s2]);
      } else if site.CommitmentOf(found).Present? {
        NoOwnerNoHit(site, LegacyMode(site, found), site.CommitmentOf(found).value, [s2]);
      }
    } else if Authentic(found) {
      StandardVerifiedIsExact(site, s2, found.policy.value, OwnerShares(site.rows.value).shares);
    } else {
      StandardLegacyIsExact(site, found, s2, OwnerShares(site.rows.value).shares);
    }
  }

  /** What the last step of the time-locked path needs to match. */
  ghost predicate TimelockHits(site: Site, policy: Policy, s2: string, s3: string) {
    if policy.mode.Strict? then exists row :: OwnerHits(site, policy.mode, policy.commitment, [s2, s3], row)
    else Hits(Attempt([], [s2, s3]), site.RecoverBy(policy.mode), site.CommitsTo(policy.commitment))
  }

  /** Time-locked path: the clock, the earliest time of issuance, the digest, the
      newest authentic envelope and the commitment all have to agree. */
  ghost predicate TimelockMayRelease(site: Site, s2: string, found: Selection) {
    && Table(TimelockPath, found, site.requirePolicy) == TsaVerified
    && var policy := found.policy.value;
    && !site.configMissing && site.hasWrapped == Present(true)
    && policy.unlockTime <= site.now
    && site.stamp.Some? && policy.unlockTime <= site.stamp.value.genTime - site.stamp.value.accuracy
    && site.digestHolds == Present(true) && (site.masterKey.Present? || site.masterKey.Absent?)
    && FirstAuthentic(site.envelopes).Some?
    && IsHexShare(FirstAuthentic(site.envelopes).value, '3', 128)
    && TimelockHits(site, policy, s2, FirstAuthentic(site.envelopes).value)
  }

  lemma TimelockMatchIsExact(site: Site, policy: Policy, s2: string, s3: string, owner: seq<StoredShare>)
    requires policy.mode.Strict? ==> site.rows.Present? && OwnerShares(site.rows.value) == Usable(owner)
    ensures var ending := ReleaseMatching(site, policy.mode, policy.commitment, TimelockAttempts(policy, s2, s3, owner));
      && (ending.Released? <==> TimelockHits(site, policy, s2, s3))
      && (ending.Released? ==> site.commits(ending.key, policy.commitment))
      && (ending.Released? && policy.mode.Strict? ==>
            ReleasesBestOwner(site, policy.mode, policy.commitment, policy.generation, [s2, s3], ending))
  {
    if policy.mode.Strict? {
      OwnerReleaseIsExact(site, policy.mode, policy.commitment, policy.generation, [s2, s3], owner);
    } else {
      FirstMatchIsFirst(TimelockAttempts(policy, s2, s3, owner), site.RecoverBy(policy.mode), site.CommitsTo(policy.commitment));
    }
  }

  lemma TimelockIsExact(site: Site, s2: string, found: Selection)
    ensures var ending := DecideTimelock(site, s2, found);
      && (ending.Released? <==> TimelockMayRelease(site, s2, found))
      && (ending.Released? ==> site.commits(ending.key, found.policy.value.commitment))
      && (ending.Released? && found.policy.value.mode.Strict? ==>
            ReleasesBestOwner(site, found.policy.value.mode, found.policy.value.commitment,
                              found.policy.value.generation, [s2, FirstAuthentic(site.envelopes).value], ending))
  {
    hide FirstMatch, OwnerAttempts, OwnerShares, OwnerHits, ReleasesBestOwner, FirstAuthentic, IsHexShare;
    if found.status.Verified? && found.policy.Some? && FirstAuthentic(site.envelopes).Some? {
      var policy, s3 := found.policy.value, FirstAuthentic(site.envelopes).value;
      if policy.mode.Standard? {
        TimelockMatchIsExact(site, policy, s2, s3, []);
      } else if site.rows.Present? && OwnerShares(site.rows.value).Usable? {
        TimelockMatchIsExact(site, policy, s2, s3, OwnerShares(site.rows.value).shares);
      } else {
        NoOwnerNoHit(site, policy.mode, policy.commitment, [s2, s3]);
      }
    }
  }

  /** Some s4 with some other usable share matches the commitment. */
  ghost predicate PairHits(site: Site, policy: Policy, rows: seq<StoredShare>, other: StoredShare, s4: StoredShare) {
    && s4 in rows && s4.index == ADMIN_SLOT && IsUsable(s4)
    && other in rows && other.index != ADMIN_SLOT && IsUsable(other)
    && Hits(PairAttempt(other, s4), site.RecoverBy(policy.mode), site.CommitsTo(policy.commitment))
  }

  ghost predicate AdminMayRelease(site: Site, reason: string, operator: string, rows: seq<StoredShare>, found: Selection) {
    && operator != "" && reason != "" && AdminShares(rows).Usable? && OtherShares(rows).Usable?
    && match Table(AdminPath, found, site.requirePolicy)
       case Override => exists other, s4 :: PairHits(site, found.policy.value, rows, other, s4)
       case Flagged =>
         && GenerationZeroShares(rows).1.None? && (site.ModeOf(found).Present? || site.ModeOf(found).Absent?)
         && var used := GenerationZeroShares(rows).0;
            site.recover(LegacyMode(site, found), [used[0].data, used[1].data]).Some?
       case _ => false
  }

  lemma AdminPoolsAre(rows: seq<StoredShare>)
    requires AdminShares(rows).Usable? && OtherShares(rows).Usable?
    ensures var admins, others := AdminShares(rows).shares, OtherShares(rows).shares;
      && admins != [] && (forall row :: row in admins <==> row in rows && row.index == ADMIN_SLOT && IsUsable(row))
      && others != [] && (forall row :: row in others <==> row in rows && row.index != ADMIN_SLOT && IsUsable(row))
  {
  }

  /** Two non-empty pools fill two slots. */
  lemma PoolsFillTwoSlots(rows: seq<StoredShare>)
    requires AdminShares(rows).Usable? && OtherShares(rows).Usable?
    ensures |FilledSlots(rows)| >= 2
  {
    AdminPoolsAre(rows);
    var s4, other := AdminShares(rows).shares[0], OtherShares(rows).shares[0];
    assert s4 in AdminShares(rows).shares && other in OtherShares(rows).shares;
    SubsetSize({s4.index, other.index}, FilledSlots(rows));
  }

  lemma {:induction false} SubsetSize(a: set<nat>, b: set<nat>)
    requires a <= b
    ensures |a| <= |b|
  {
    if a != {} {
      var x :| x in a;
      SubsetSize(a - {x}, b - {x});
    }
  }

  ghost predicate AdminReleasesBest(site: Site, policy: Policy, rows: seq<StoredShare>, ending: Ending) {
    && ending.Released? && |ending.used| == 2
    && PairHits(site, policy, rows, ending.used[0], ending.used[1])
    && site.commits(ending.key, policy.commitment)
    && (forall other, s4 | PairHits(site, policy, rows, other, s4) :: Precedes(policy.generation, ending.used[1], s4))
    && (forall other | PairHits(site, policy, rows, other, ending.used[1]) ::
          Precedes(policy.generation, ending.used[0], other))
  }

  lemma AdminVerifiedIsExact(site: Site, policy: Policy, rows: seq<StoredShare>)
    requires AdminShares(rows).Usable? && OtherShares(rows).Usable?
    ensures var ending := ReleaseMatching(site, policy.mode, policy.commitment,
                            AdminAttempts(AdminShares(rows).shares, OtherShares(rows).shares, policy.generation));
      && (ending.Released? <==> exists other, s4 :: PairHits(site, policy, rows, other, s4))
      && (ending.Released? ==> AdminReleasesBest(site, policy, rows, ending))
  {
    var admins, others := AdminShares(rows).shares, OtherShares(rows).shares;
    var recover, matches := site.RecoverBy(policy.mode), site.CommitsTo(policy.commitment);
    AdminPoolsAre(rows);
    AdminSearchIsExact(admins, others, policy.generation, recover, matches);
    var m := FirstMatch(AdminAttempts(admins, others, policy.generation), recover, matches);
    if m.Found? {
      assert PairHits(site, policy, rows, m.used[0], m.used[1]);
    } else {
      forall other, s4
        ensures !PairHits(site, policy, rows, other, s4)
      {
        assert s4 in admins ==> NoneHits(s4, others, recover, matches);
      }
    }
  }

  /** The admin path releases exactly when the table allows it and some pair matches
      (or, flagged, the generation-0 pair recombines). */
  lemma AdminIsExact(site: Site, reason: string, operator: string, rows: seq<StoredShare>, found: Selection)
    ensures var ending := DecideAdmin(site, reason, operator, rows, found);
      && (ending.Released? <==> AdminMayRelease(site, reason, operator, rows, found))
      && (ending.Released? && Authentic(found) ==> AdminReleasesBest(site, found.policy.value, rows, ending))
      && (ending.Released? && !Authentic(found) ==>
            |ending.used| == 2 && ending.used[0].generation == 0 && ending.used[1].generation == 0)
  {
    hide FirstMatch, AdminAttempts, AdminShares, OtherShares, FilledSlots, PairHits, GenerationZeroShares;
    if AdminShares(rows).Usable? && OtherShares(rows).Usable? {
      PoolsFillTwoSlots(rows);
      if Authentic(found) {
        AdminVerifiedIsExact(site, found.policy.value, rows);
      } else if GenerationZeroShares(rows).1.None? {
        GenerationZeroIs(rows);
      }
    }
  }

  lemma GenerationZeroIs(rows: seq<StoredShare>)
    requires GenerationZeroShares(rows).1.None?
    ensures var used := GenerationZeroShares(rows).0;
      && |used| == 2 && used[0] in rows && used[1] in rows
      && used[0].generation == 0 && used[1].generation == 0
      && used[0].index != ADMIN_SLOT && used[1].index == ADMIN_SLOT && IsUsable(used[0]) && IsUsable(used[1])
      && forall row | row in rows && row.generation == 0 && row.data != "" && row.index != ADMIN_SLOT ::
           used[0].index <= row.index
  {
  }

  // ---------- why a denial is a denial ----------

  /** The reason that goes with a denying cell of the table. */
  function TableDenial(found: Selection, requirePolicy: bool): Reason {
    if found.status.RecordUnreadable? || found.status.Invalid? then StatusDenied(found.status)
    else if found.enrolled then PolicyUnverifiable
    else if requirePolicy then PolicyRequired
    else CommitmentMissing
  }

  /** The lookups in the latest record answer, if only with nothing. */
  predicate LookupsAnswer(site: Site, found: Selection) {
    && (site.ModeOf(found).Present? || site.ModeOf(found).Absent?)
    && (site.UnlockOf(found).Present? || site.UnlockOf(found).Absent?)
    && (site.CommitmentOf(found).Present? || site.CommitmentOf(found).Absent?)
  }

  /** Once the shares are usable, a denying cell decides, with its own reason; the cell of
      a seal without a record is decided by the lookups, which find nothing. */
  lemma DeniedByTable(site: Site, s2: string, reason: string, operator: string, rows: seq<StoredShare>, found: Selection)
    ensures Table(StandardPath, found, site.requirePolicy) == Deny && site.rows.Present? && OwnerShares(site.rows.value).Usable?
      && (TableDenial(found, site.requirePolicy).CommitmentMissing? ==> LookupsAnswer(site, found))
      ==> DecideStandard(site, s2, found) == Denied(TableDenial(found, site.requirePolicy))
    ensures Table(StandardPath, found, site.requirePolicy) == Deny ==> !DecideStandard(site, s2, found).Released?
    ensures Table(AdminPath, found, site.requirePolicy) == Deny && operator != "" && reason != ""
            && AdminShares(rows).Usable? && OtherShares(rows).Usable?
      ==> DecideAdmin(site, reason, operator, rows, found) == Denied(TableDenial(found, site.requirePolicy))
    ensures Table(TimelockPath, found, site.requirePolicy) == Deny
      ==> DecideTimelock(site, s2, found) == Denied(StatusDenied(found.status))
  {
    hide OwnerShares, AdminShares, OtherShares, FilledSlots;
    if AdminShares(rows).Usable? && OtherShares(rows).Usable? { PoolsFillTwoSlots(rows); }
  }

  /** Some usable stored owner share recombines with the presented shares. */
  ghost predicate OwnerRecombines(site: Site, mode: Mode, presented: seq<string>) {
    && site.rows.Present?
    && exists row ::
         && row in site.rows.value && row.index == OWNER_SLOT && IsUsable(row)
         && Recombines(OwnerAttempt(row, presented), site.RecoverBy(mode))
  }

  /** With an authenticated policy whose time has come, the denial is a failed
      recovery exactly when no owner share recombines. */
  lemma StandardDenialIsExact(site: Site, s2: string, found: Selection)
    requires Authentic(found) && site.rows.Present? && OwnerShares(site.rows.value).Usable?
    requires found.policy.value.unlockTime <= site.now
    ensures var policy, ending := found.policy.value, DecideStandard(site, s2, found);
      && (ending == Denied(RecoveryFailed) <==> !OwnerRecombines(site, policy.mode, [s2]))
      && (ending == Denied(CommitmentMismatch) <==>
            OwnerRecombines(site, policy.mode, [s2])
            && !exists row :: OwnerHits(site, policy.mode, policy.commitment, [s2], row))
  {
    var policy, owner := found.policy.value, OwnerShares(site.rows.value).shares;
    OwnerReleaseIsExact(site, policy.mode, policy.commitment, policy.generation, [s2], owner);
    OwnerSharesAre(site.rows.value);
    hide FirstMatch, OwnerAttempts, OwnerShares;
  }

  ghost predicate PairRecombines(site: Site, mode: Mode, rows: seq<StoredShare>) {
    exists other, s4 ::
      && s4 in rows && s4.index == ADMIN_SLOT && IsUsable(s4)
      && other in rows && other.index != ADMIN_SLOT && IsUsable(other)
      && Recombines(PairAttempt(other, s4), site.RecoverBy(mode))
  }

  /** The same on the admin path, over every s4 with every other share. */
  lemma AdminDenialIsExact(site: Site, reason: string, operator: string, rows: seq<StoredShare>, found: Selection)
    requires Authentic(found) && operator != "" && reason != ""
    requires AdminShares(rows).Usable? && OtherShares(rows).Usable?
    ensures var policy, ending := found.policy.value, DecideAdmin(site, reason, operator, rows, found);
      && (ending == Denied(RecoveryFailed) <==> !PairRecombines(site, policy.mode, rows))
      && (ending == Denied(CommitmentMismatch) <==>
            PairRecombines(site, policy.mode, rows) && !exists other, s4 :: PairHits(site, policy, rows, other, s4))
  {
    var policy := found.policy.value;
    var admins, others := AdminShares(rows).shares, OtherShares(rows).shares;
    PoolsFillTwoSlots(rows);
    AdminPoolsAre(rows);
    AdminVerifiedIsExact(site, policy, rows);
    AdminSearchIsExact(admins, others, policy.generation, site.RecoverBy(policy.mode), site.CommitsTo(policy.commitment));
    hide FirstMatch, AdminAttempts, AdminShares, OtherShares, FilledSlots, PairHits;
  }

  /** A seal with a mark or an enrollment but no usable policy is denied on every path. */
  lemma EnrolledDenialIsEverywhere(site: Site, s2: string, reason: string, operator: string, rows: seq<StoredShare>, status: Status)
    requires status.Invalid? || status.Unverifiable?
    ensures var found := Selection(status, None, true);
      && !DecideStandard(site, s2, found).Released? && !DecideTimelock(site, s2, found).Released?
      && !DecideAdmin(site, reason, operator, rows, found).Released?
  {
    hide DecideStandard, DecideTimelock, DecideAdmin;
    var found := Selection(status, None, true);
    StandardIsExact(site, s2, found);
    TimelockIsExact(site, s2, found);
    AdminIsExact(site, reason, operator, rows, found);
  }
}
