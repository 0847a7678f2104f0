/**
 * The records, mark and enrollment of one seal over whole runs: sync admission,
 * releases (whose mark is written later, outside the lock), share uploads (whose
 * stored maximum is read before the lock) and records written out of band.
 */
module SelectionRuns {
  import opened Bytes
  import opened Policies
  import opened RecordSelection

  datatype State = State(
    records: Records, mark: Option<Mark>, enrolled: bool,
    seeds: set<Mark>,               // what full scans found and may still write as the mark
    pending: set<Option<nat>>)        // what uploads read before taking the lock

  datatype Action =
    | Admit(eventId: nat, record: string, completes: bool, stores: bool)
    | Release(enrolls: bool)
    | Backfill(seed: Mark)
    | ReadMaximum
    | CommitUpload(read: Option<nat>)
    | OutOfBand(eventId: nat, record: string)

  /** `raise_high_water`: set, or raise to a higher generation. */
  function Raised(mark: Option<Mark>, m: Mark): Option<Mark> {
    if mark.None? || mark.value.generation < m.generation then Some(m) else mark
  }

  ghost predicate Decides(host: Host, s: State, basis: Basis) {
    host.Decides(s.records, s.mark, s.enrolled, basis)
  }

  // ---------- the steps ----------

  /** A seal without a mark first gets the one its stored records imply. */
  ghost function Bootstrapped(host: Host, s: State): State {
    var top := host.StoredMaximum(s.records);
    if s.mark.None? && top.Some? then s.(mark := Some(host.MarkAt(s.records, top.value))) else s
  }

  predicate GenerationRefused(mark: Option<Mark>, policy: Policy) {
    mark.Some? && (policy.generation < mark.value.generation
                   || (policy.generation == mark.value.generation && policy.digest != mark.value.digest))
  }

  /** `_store_serialized`, one transaction. `completes` is whether an identical
      resubmission goes through (no conflicting wrapped s3), `stores` whether the
      insert or the swap of the row succeeds. */
  ghost function Admitted(host: Host, s: State, e: nat, record: string, completes: bool, stores: bool): State {
    var found := host.classify(record);
    if found.status.Invalid? then s
    else if !Authentic(found) then
      if s.enrolled || e in s.records || !stores then s else s.(records := s.records[e := record])
    else
      var b := Bootstrapped(host, s);
      var m := Mark(found.policy.value.generation, found.policy.value.digest, e);
      if e in s.records && s.records[e] == record then
        if completes then b.(enrolled := true, mark := Raised(b.mark, m)) else b
      else if host.AuthenticAt(s.records, e) then b
      else if exists other :: other in s.records && other != e && s.records[other] == record then s
      else if GenerationRefused(b.mark, found.policy.value) || !stores then b
      else b.(records := b.records[e := record], enrolled := true, mark := Raised(b.mark, m))
  }

  // ---------- what an admission does ----------

  /** Some other event stores the very same record. */
  ghost predicate IsCopy(s: State, e: nat, record: string) {
    exists other :: other in s.records && other != e && s.records[other] == record
  }

  /** The mark that an admission compares with: the stored one, else the stored maximum. */
  ghost predicate ComparesWith(host: Host, s: State, generation: nat, digest: string) {
    if s.mark.Some? then s.mark.value.generation == generation && s.mark.value.digest == digest
    else host.StoredMaximum(s.records).Some?
         && host.PolicyAt(s.records, host.StoredMaximum(s.records).value).generation == generation
         && host.PolicyAt(s.records, host.StoredMaximum(s.records).value).digest == digest
  }

  predicate LosesTo(policy: Policy, generation: nat, digest: string) {
    policy.generation < generation || (policy.generation == generation && policy.digest != digest)
  }

  /** A record with an authenticated policy: at an empty event, or in place of a record
      without one, it is stored unless it is a copy, below the mark, or another policy at it;
      storing it enrolls the seal. An authenticated record is never replaced. */
  lemma AdmissionOfPolicy(host: Host, s: State, e: nat, record: string, completes: bool)
    requires Authentic(host.classify(record)) && (e in s.records ==> s.records[e] != record)
    ensures var policy, t := host.classify(record).policy.value, Admitted(host, s, e, record, completes, true);
      var refused := exists g, d :: ComparesWith(host, s, g, d) && LosesTo(policy, g, d);
      && (host.AuthenticAt(s.records, e) || IsCopy(s, e, record) || refused ==>
            t.records == s.records && t.enrolled == s.enrolled)
      && (!host.AuthenticAt(s.records, e) && !IsCopy(s, e, record) && !refused ==>
            && t.records == s.records[e := record] && t.enrolled && t.mark.Some?
            && t.mark.value.generation == policy.generation && t.mark.value.digest == policy.digest)
  {
    var policy, b := host.classify(record).policy.value, Bootstrapped(host, s);
    if b.mark.Some? {
      assert ComparesWith(host, s, b.mark.value.generation, b.mark.value.digest);
      assert forall g, d | ComparesWith(host, s, g, d) :: g == b.mark.value.generation && d == b.mark.value.digest;
    } else {
      assert forall g, d :: !ComparesWith(host, s, g, d);
    }
  }

  /** The same record again: it completes what was stored, and enrolls the seal. */
  lemma AdmissionAgain(host: Host, s: State, e: nat, record: string, stores: bool)
    requires Authentic(host.classify(record)) && e in s.records && s.records[e] == record
    ensures var t := Admitted(host, s, e, record, true, stores); t.records == s.records && t.enrolled && t.mark.Some?
    ensures var t := Admitted(host, s, e, record, false, stores); t.records == s.records && t.enrolled == s.enrolled
  {
  }

  /** A record without an authenticated policy: stored only at an empty event of a seal that
      is not enrolled, and never when its policy is invalid; it moves nothing else. */
  lemma AdmissionWithoutPolicy(host: Host, s: State, e: nat, record: string, completes: bool)
    requires !Authentic(host.classify(record))
    ensures var t := Admitted(host, s, e, record, completes, true);
      && t.mark == s.mark && t.enrolled == s.enrolled
      && t.records == if host.classify(record).status.Invalid? || s.enrolled || e in s.records then s.records
                      else s.records[e := record]
  {
  }

  /** An admission whose write fails stores nothing. */
  lemma AdmissionUnwritten(host: Host, s: State, e: nat, record: string, completes: bool)
    ensures Admitted(host, s, e, record, completes, false).records == s.records
  {
  }

  ghost predicate Enabled(s: State, a: Action) {
    match a
    case Backfill(seed) => seed in s.seeds
    case CommitUpload(read) => read in s.pending
    case OutOfBand(e, _) => e !in s.records
    case _ => true
  }

  ghost function Next(host: Host, s: State, a: Action): State {
    match a
    case Admit(e, record, completes, stores) => Admitted(host, s, e, record, completes, stores)
    case Release(enrolls) =>
      var top := host.StoredMaximum(s.records);
      var found := if s.mark.None? then top.Some?
                   else exists e :: host.Carries(s.records, s.mark.value.digest, e);
      s.(enrolled := s.enrolled || (found && enrolls),
         seeds := if s.mark.None? && top.Some? then s.seeds + {host.MarkAt(s.records, top.value)} else s.seeds)
    case Backfill(seed) => if s.mark.None? then s.(mark := Some(seed)) else s
    case ReadMaximum =>
      s.(pending := s.pending + {if s.mark.Some? then None else Some(host.StoredGeneration(s.records))})
    case CommitUpload(_) => s
    case OutOfBand(e, record) => s.(records := s.records[e := record])
  }

  /** `current_generation` under the lock: the tag an upload that read `read` stores. */
  ghost function UploadTag(host: Host, s: State, read: Option<nat>): nat {
    if s.mark.Some? then s.mark.value.generation
    else if read.Some? then read.value
    else host.StoredGeneration(s.records)
  }

  ghost predicate Initial(s: State) {
    s.mark.None? && s.seeds == {} && s.pending == {}
  }

  ghost predicate IsRun(host: Host, states: seq<State>, actions: seq<Action>) {
    && |states| == |actions| + 1
    && Initial(states[0])
    && forall i | 0 <= i < |actions| :: Enabled(states[i], actions[i]) && states[i + 1] == Next(host, states[i], actions[i])
  }

  ghost predicate SyncOnly(actions: seq<Action>) {
    forall i | 0 <= i < |actions| :: !actions[i].OutOfBand?
  }

  // ---------- the mark is the top record's policy ----------

  /** Some top record carries this policy. */
  ghost predicate TopIs(host: Host, records: Records, generation: nat, digest: string) {
    exists t :: host.IsTop(records, t)
             && host.PolicyAt(records, t).generation == generation && host.PolicyAt(records, t).digest == digest
  }

  ghost predicate MarkIsTop(host: Host, s: State) {
    && (s.mark.Some? ==> TopIs(host, s.records, s.mark.value.generation, s.mark.value.digest))
    && (s.mark.None? ==> forall m | m in s.seeds :: TopIs(host, s.records, m.generation, m.digest))
    && (s.mark.None? ==> forall r | r in s.pending :: r == Some(host.StoredGeneration(s.records)))
  }

  lemma TopIsUnique(host: Host, records: Records, t: nat, u: nat)
    requires host.IsTop(records, t) && host.IsTop(records, u)
    ensures t == u
  {
  }

  /** Adding a record without an authenticated policy changes no authentic record. */
  lemma UnauthenticIrrelevant(host: Host, records: Records, e: nat, record: string)
    requires e !in records && !Authentic(host.classify(record))
    ensures var after := records[e := record];
            && (forall t :: host.IsTop(after, t) <==> host.IsTop(records, t))
            && (forall g, d :: TopIs(host, after, g, d) <==> TopIs(host, records, g, d))
            && host.StoredGeneration(after) == host.StoredGeneration(records)
  {
    var after := records[e := record];
    forall x: nat
      ensures host.AuthenticAt(after, x) <==> host.AuthenticAt(records, x)
      ensures host.AuthenticAt(records, x) ==> host.PolicyAt(after, x) == host.PolicyAt(records, x)
    {
    }
    forall t
      ensures host.IsTop(after, t) <==> host.IsTop(records, t)
    {
      if host.IsTop(records, t) {
        forall x | host.AuthenticAt(after, x) ensures host.AtLeast(after, t, x) {
          assert host.AtLeast(records, t, x);
        }
      }
      if host.IsTop(after, t) {
        forall x | host.AuthenticAt(records, x) ensures host.AtLeast(records, t, x) {
          assert host.AtLeast(after, t, x);
        }
      }
    }
    if host.StoredMaximum(records).Some? && host.StoredMaximum(after).Some? {
      TopIsUnique(host, records, host.StoredMaximum(records).value, host.StoredMaximum(after).value);
    }
  }

  /** Storing an admitted policy where no authentic record was: the raised mark is the new top. */
  lemma AdmittedIsTop(host: Host, records: Records, mark: Option<Mark>, e: nat, record: string)
    requires Authentic(host.classify(record)) && !host.AuthenticAt(records, e)
    requires mark.None? ==> forall x :: !host.AuthenticAt(records, x)
    requires mark.Some? ==> TopIs(host, records, mark.value.generation, mark.value.digest)
    requires !GenerationRefused(mark, host.classify(record).policy.value)
    ensures var policy := host.classify(record).policy.value;
            var m := Raised(mark, Mark(policy.generation, policy.digest, e)).value;
            TopIs(host, records[e := record], m.generation, m.digest)
  {
    var after, policy := records[e := record], host.classify(record).policy.value;
    var raised := Raised(mark, Mark(policy.generation, policy.digest, e)).value;
    var t: nat := e;
    if mark.Some? {
      var prior: nat :| host.IsTop(records, prior) && host.PolicyAt(records, prior).generation == mark.value.generation
                     && host.PolicyAt(records, prior).digest == mark.value.digest;
      t := if policy.generation > mark.value.generation || prior < e then e else prior;
      assert forall x: nat | host.AuthenticAt(records, x) :: host.AtLeast(records, prior, x);
    }
    forall x: nat | host.AuthenticAt(after, x)
      ensures host.AtLeast(after, t, x)
    {
      assert x == e || host.AuthenticAt(records, x);
    }
    assert host.IsTop(after, t);
  }

  lemma BootstrapKeepsMarkIsTop(host: Host, s: State)
    requires MarkIsTop(host, s)
    ensures MarkIsTop(host, Bootstrapped(host, s))
    ensures Bootstrapped(host, s).mark.None? ==> forall e :: !host.AuthenticAt(s.records, e)
  {
  }

  /** An identical resubmission cannot raise a mark that is the top policy. */
  lemma ResubmissionKeepsMark(host: Host, b: State, e: nat)
    requires MarkIsTop(host, b) && b.mark.Some? && host.AuthenticAt(b.records, e)
    ensures Raised(b.mark, host.MarkAt(b.records, e)) == b.mark
  {
  }

  lemma AdmissionKeepsMarkIsTop(host: Host, s: State, e: nat, record: string, completes: bool, stores: bool)
    requires MarkIsTop(host, s)
    ensures MarkIsTop(host, Admitted(host, s, e, record, completes, stores))
  {
    var found := host.classify(record);
    if !Authentic(found) {
      if e !in s.records {
        UnauthenticIrrelevant(host, s.records, e, record);
      }
    } else {
      BootstrapKeepsMarkIsTop(host, s);
      var b := Bootstrapped(host, s);
      if e in s.records && s.records[e] == record {
        assert host.AuthenticAt(s.records, e);
        ResubmissionKeepsMark(host, b, e);
      } else if !host.AuthenticAt(s.records, e) && !GenerationRefused(b.mark, found.policy.value) {
        AdmittedIsTop(host, s.records, b.mark, e, record);
      }
    }
  }

  lemma StepKeepsMarkIsTop(host: Host, s: State, a: Action)
    requires MarkIsTop(host, s) && Enabled(s, a) && !a.OutOfBand?
    ensures MarkIsTop(host, Next(host, s, a))
  {
    match a
    case Admit(e, record, completes, stores) => AdmissionKeepsMarkIsTop(host, s, e, record, completes, stores);
    case Release(_) =>
      var top := host.StoredMaximum(s.records);
      if s.mark.None? && top.Some? {
        assert host.IsTop(s.records, top.value);
      }
    case Backfill(_) =>
    case ReadMaximum =>
    case CommitUpload(_) =>
    case OutOfBand(_, _) =>
  }

  lemma {:induction false} ReachableMarkIsTop(host: Host, states: seq<State>, actions: seq<Action>, i: nat)
    requires IsRun(host, states, actions) && SyncOnly(actions) && i < |states|
    ensures MarkIsTop(host, states[i])
  {
    if i > 0 {
      ReachableMarkIsTop(host, states, actions, i - 1);
      StepKeepsMarkIsTop(host, states[i - 1], actions[i - 1]);
    }
  }

  // ---------- main results ----------

  /** In every reachable state with a mark, the record found at the mark is the
      record a full scan would choose, and there is one. */
  lemma FastSelectionRefinesFullScan(host: Host, states: seq<State>, actions: seq<Action>, i: nat)
    requires host.DigestsBind() && IsRun(host, states, actions) && SyncOnly(actions) && i < |states|
    requires states[i].mark.Some?
    ensures var s := states[i];
            && (forall t :: host.IsNewestCarrying(s.records, s.mark.value.digest, t) <==> host.IsTop(s.records, t))
            && (exists t :: host.IsTop(s.records, t))
  {
    ReachableMarkIsTop(host, states, actions, i);
    var s := states[i];
    var top :| host.IsTop(s.records, top)
            && host.PolicyAt(s.records, top).generation == s.mark.value.generation
            && host.PolicyAt(s.records, top).digest == s.mark.value.digest;
    forall t
      ensures host.IsNewestCarrying(s.records, s.mark.value.digest, t) <==> host.IsTop(s.records, t)
    {
      host.FastScanIsFullScan(s.records, s.mark.value.digest, t, top);
    }
  }

  /** The release that seeds the mark and every repeat of it rest on the same record. */
  lemma SeedingReleaseRepeats(host: Host, s: State, first: Basis, again: Basis)
    requires host.DigestsBind() && s.mark.None? && first.Rests? && Decides(host, s, first)
    requires Decides(host, s.(mark := Some(host.MarkAt(s.records, first.eventId)), enrolled := true), again)
    ensures again == first
  {
    var digest := host.PolicyAt(s.records, first.eventId).digest;
    assert host.Carries(s.records, digest, first.eventId);
    if again.Rests? {
      host.FastScanIsFullScan(s.records, digest, again.eventId, first.eventId);
      TopIsUnique(host, s.records, first.eventId, again.eventId);
    }
  }

  lemma TagIsMaximum(host: Host, records: Records)
    ensures (forall e :: !host.AuthenticAt(records, e)) ==> host.StoredGeneration(records) == 0
    ensures forall e | host.AuthenticAt(records, e) :: host.PolicyAt(records, e).generation <= host.StoredGeneration(records)
    ensures (exists e :: host.AuthenticAt(records, e)) ==>
      exists e :: host.AuthenticAt(records, e) && host.PolicyAt(records, e).generation == host.StoredGeneration(records)
  {
    var top := host.StoredMaximum(records);
    forall e | host.AuthenticAt(records, e)
      ensures top.Some? && host.PolicyAt(records, e).generation <= host.StoredGeneration(records)
    {
      assert host.AtLeast(records, top.value, e);
    }
  }

  /** Every upload is tagged with the highest authenticated generation stored at
      the moment it commits, whatever happened since it read the records. */
  lemma UploadTagIsCurrent(host: Host, states: seq<State>, actions: seq<Action>, i: nat)
    requires IsRun(host, states, actions) && SyncOnly(actions)
    requires i < |actions| && actions[i].CommitUpload?
    ensures UploadTag(host, states[i], actions[i].read) == host.StoredGeneration(states[i].records)
    ensures var s, tag := states[i], UploadTag(host, states[i], actions[i].read);
      && ((forall e :: !host.AuthenticAt(s.records, e)) ==> tag == 0)
      && (forall e | host.AuthenticAt(s.records, e) :: host.PolicyAt(s.records, e).generation <= tag)
      && ((exists e :: host.AuthenticAt(s.records, e)) ==>
            exists e :: host.AuthenticAt(s.records, e) && host.PolicyAt(s.records, e).generation == tag)
  {
    ReachableMarkIsTop(host, states, actions, i);
    var s := states[i];
    assert actions[i].read in s.pending;
    TagIsMaximum(host, s.records);
    if s.mark.Some? {
      var t :| host.IsTop(s.records, t) && host.PolicyAt(s.records, t).generation == s.mark.value.generation;
      TopIsUnique(host, s.records, t, host.StoredMaximum(s.records).value);
    }
  }

  /** The mark's digest and generation come from one authenticated policy. */
  ghost predicate Genuine(host: Host, m: Mark) {
    exists record: string :: var found := host.classify(record);
      Authentic(found) && found.policy.value.generation == m.generation && found.policy.value.digest == m.digest
  }

  ghost predicate MarksGenuine(host: Host, s: State) {
    (s.mark.Some? ==> Genuine(host, s.mark.value)) && forall m | m in s.seeds :: Genuine(host, m)
  }

  lemma StepKeepsMarksGenuine(host: Host, s: State, a: Action)
    requires MarksGenuine(host, s) && Enabled(s, a)
    ensures MarksGenuine(host, Next(host, s, a))
    ensures s.mark.Some? ==>
      Next(host, s, a).mark.Some? && s.mark.value.generation <= Next(host, s, a).mark.value.generation
    ensures s.enrolled ==> Next(host, s, a).enrolled
  {
    var top := host.StoredMaximum(s.records);
    if top.Some? {
      var found := host.classify(s.records[top.value]);
      assert Genuine(host, host.MarkAt(s.records, top.value));
    }
    if a.Admit? && Authentic(host.classify(a.record)) {
      var policy := host.classify(a.record).policy.value;
      assert Genuine(host, Mark(policy.generation, policy.digest, a.eventId));
    }
  }

  lemma {:induction false} MarkNeverFalls(host: Host, states: seq<State>, actions: seq<Action>, i: nat, j: nat)
    requires IsRun(host, states, actions) && i <= j < |states|
    ensures MarksGenuine(host, states[j])
    ensures states[i].mark.Some? ==>
      states[j].mark.Some? && states[i].mark.value.generation <= states[j].mark.value.generation
    ensures states[i].enrolled ==> states[j].enrolled
    decreases j
  {
    if j > 0 {
      MarkNeverFalls(host, states, actions, if i < j then i else j - 1, j - 1);
      StepKeepsMarksGenuine(host, states[j - 1], actions[j - 1]);
    }
  }

  /** No fallback, no rollback, whatever is written out of band: once the seal has
      a mark, every later decision rests on an authenticated policy of at least
      the mark's generation or is denied on every path; once it is enrolled, no
      later decision falls back to an unauthenticated record. */
  lemma NoFallbackNoRollback(host: Host, states: seq<State>, actions: seq<Action>, i: nat, j: nat, basis: Basis)
    requires host.DigestsBind() && IsRun(host, states, actions) && i <= j < |states|
    requires Decides(host, states[j], basis)
    ensures states[i].mark.Some? || states[i].enrolled ==> !basis.Fallback?
    ensures states[i].mark.Some? && basis.Rests? ==> states[i].mark.value.generation <= basis.policy.generation
  {
    MarkNeverFalls(host, states, actions, i, j);
  }

  // ---------- generations without a mark ----------

  /** Authentic records stay: a later top is at least an earlier one. */
  lemma StepKeepsAuthentic(host: Host, s: State, a: Action, e: nat)
    requires Enabled(s, a) && host.AuthenticAt(s.records, e)
    ensures host.AuthenticAt(Next(host, s, a).records, e)
    ensures host.PolicyAt(Next(host, s, a).records, e) == host.PolicyAt(s.records, e)
  {
  }

  lemma {:induction false} AuthenticStay(host: Host, states: seq<State>, actions: seq<Action>, i: nat, j: nat, e: nat)
    requires IsRun(host, states, actions) && i <= j < |states| && host.AuthenticAt(states[i].records, e)
    ensures host.AuthenticAt(states[j].records, e)
    ensures host.PolicyAt(states[j].records, e) == host.PolicyAt(states[i].records, e)
    decreases j
  {
    if i < j {
      AuthenticStay(host, states, actions, i, j - 1, e);
      StepKeepsAuthentic(host, states[j - 1], actions[j - 1], e);
    }
  }

  /** When every record comes through sync admission, decisions never fall back in
      generation at all, marked or not. */
  lemma DecisionsNeverFall(host: Host, states: seq<State>, actions: seq<Action>, i: nat, j: nat, first: Basis, later: Basis)
    requires host.DigestsBind() && IsRun(host, states, actions) && SyncOnly(actions) && i <= j < |states|
    requires first.Rests? && Decides(host, states[i], first) && Decides(host, states[j], later)
    ensures later.Rests? && first.policy.generation <= later.policy.generation
  {
    var s := states[j];
    AuthenticStay(host, states, actions, i, j, first.eventId);
    host.TopExists(s.records, first.eventId);
    if s.mark.Some? {
      FastSelectionRefinesFullScan(host, states, actions, j);
    }
    var top :| host.IsTop(s.records, top);
    assert s.mark.Some? ==> host.Carries(s.records, s.mark.value.digest, top);
    assert host.AtLeast(s.records, later.eventId, first.eventId);
  }

  /** The restriction to sync admission is needed while a mark is still missing: a
      higher policy written out of band between a release's scan and its mark
      write is decided on once, and then no more. */
  lemma OutOfBandDuringBackfillRollsBack(host: Host, lower: string, higher: string)
    requires Authentic(host.classify(lower)) && Authentic(host.classify(higher))
    requires host.classify(lower).policy.value.generation < host.classify(higher).policy.value.generation
    requires host.classify(lower).policy.value.digest != host.classify(higher).policy.value.digest
    ensures exists states, actions, first, later ::
      && IsRun(host, states, actions) && |states| == 4
      && Decides(host, states[2], first) && Decides(host, states[3], later) && first.Rests? && later.Rests?
      && later.policy.generation < first.policy.generation
  {
    var records := map[1 := lower];
    var s0 := State(records, None, false, {}, {});
    assert host.IsTop(records, 1);
    var top := host.StoredMaximum(records).value;
    TopIsUnique(host, records, 1, top);
    var seed := host.MarkAt(records, 1);
    var s1 := s0.(enrolled := true, seeds := {seed});
    assert Next(host, s0, Release(true)) == s1;
    var both := records[2 := higher];
    var s2 := s1.(records := both);
    var s3 := s2.(mark := Some(seed));
    var states := [s0, s1, s2, s3];
    var actions := [Release(true), OutOfBand(2, higher), Backfill(seed)];
    assert IsRun(host, states, actions);
    assert host.IsTop(both, 2);
    var first, later := Rests(2, host.PolicyAt(both, 2)), Rests(1, host.PolicyAt(both, 1));
    assert Decides(host, s2, first);
    assert Decides(host, s3, later);
  }
}
