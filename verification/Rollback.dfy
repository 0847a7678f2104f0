/**
 * Exactly which runs let a decision fall back to a lower policy generation, records
 * written out of band included: those with a back-fill whose seed was scanned before a
 * higher policy was written past sync admission.
 */
module Rollback {
  import opened Bytes
  import opened Policies
  import opened RecordSelection
  import opened SelectionRuns

  // ---------- every mark is carried by a stored record ----------

  ghost predicate Backs(host: Host, records: Records, m: Mark, e: nat) {
    host.AuthenticAt(records, e)
    && host.PolicyAt(records, e).generation == m.generation && host.PolicyAt(records, e).digest == m.digest
  }

  ghost predicate IsBacked(host: Host, records: Records, m: Mark) {
    exists e :: Backs(host, records, m, e)
  }

  ghost predicate AllBacked(host: Host, s: State) {
    (s.mark.Some? ==> IsBacked(host, s.records, s.mark.value)) && forall m | m in s.seeds :: IsBacked(host, s.records, m)
  }

  lemma StillBacked(host: Host, s: State, a: Action, m: Mark)
    requires Enabled(s, a) && IsBacked(host, s.records, m)
    ensures IsBacked(host, Next(host, s, a).records, m)
  {
    var e :| Backs(host, s.records, m, e);
    StepKeepsAuthentic(host, s, a, e);
    assert Backs(host, Next(host, s, a).records, m, e);
  }

  lemma StepKeepsBacked(host: Host, s: State, a: Action)
    requires AllBacked(host, s) && Enabled(s, a)
    ensures AllBacked(host, Next(host, s, a))
  {
    var t, top := Next(host, s, a), host.StoredMaximum(s.records);
    if s.mark.Some? { StillBacked(host, s, a, s.mark.value); }
    forall m | m in s.seeds ensures IsBacked(host, t.records, m) {
      StillBacked(host, s, a, m);
    }
    if top.Some? {
      assert Backs(host, s.records, host.MarkAt(s.records, top.value), top.value);
      StillBacked(host, s, a, host.MarkAt(s.records, top.value));
    }
    if a.Admit? && Authentic(host.classify(a.record)) && host.AuthenticAt(t.records, a.eventId) {
      assert Backs(host, t.records, host.MarkAt(t.records, a.eventId), a.eventId);
    }
  }

  lemma {:induction false} ReachableBacked(host: Host, states: seq<State>, actions: seq<Action>, i: nat)
    requires IsRun(host, states, actions) && i < |states|
    ensures AllBacked(host, states[i])
  {
    if i > 0 {
      ReachableBacked(host, states, actions, i - 1);
      StepKeepsBacked(host, states[i - 1], actions[i - 1]);
    }
  }

  // ---------- what a later decision rests on ----------

  /** After a decision that rests on a policy every later one does too; at a mark it rests
      on the mark's generation, without one on the highest stored. */
  lemma LaterDecision(host: Host, states: seq<State>, actions: seq<Action>, i: nat, j: nat, first: Basis, later: Basis)
    requires host.DigestsBind() && IsRun(host, states, actions) && i <= j < |states|
    requires first.Rests? && Decides(host, states[i], first) && Decides(host, states[j], later)
    ensures later.Rests? && host.AuthenticAt(states[j].records, first.eventId)
    ensures host.PolicyAt(states[j].records, first.eventId) == first.policy
    ensures states[i].mark.Some? ==> first.policy.generation == states[i].mark.value.generation
    ensures states[j].mark.Some? ==> later.policy.generation == states[j].mark.value.generation
    ensures states[j].mark.None? ==> first.policy.generation <= later.policy.generation
  {
    AuthenticStay(host, states, actions, i, j, first.eventId);
    ReachableBacked(host, states, actions, i);
    ReachableBacked(host, states, actions, j);
    hide IsRun;
    var s, t := states[i], states[j];
    if t.mark.Some? {
      var e :| Backs(host, t.records, t.mark.value, e);
      assert host.Carries(t.records, t.mark.value.digest, e);
    }
    if s.mark.Some? {
      var e :| Backs(host, s.records, s.mark.value, e);
      assert host.Carries(s.records, s.mark.value.digest, e);
    }
    if t.mark.None? && later.Rests? {
      assert host.AtLeast(t.records, later.eventId, first.eventId);
    }
  }

  /** A later decision is of a lower generation exactly when a mark below the first one
      has appeared in between. */
  lemma FallsBackExactly(host: Host, states: seq<State>, actions: seq<Action>, i: nat, j: nat, first: Basis, later: Basis)
    requires host.DigestsBind() && IsRun(host, states, actions) && i <= j < |states|
    requires first.Rests? && Decides(host, states[i], first) && Decides(host, states[j], later)
    ensures later.Rests?
    ensures later.policy.generation < first.policy.generation <==>
      states[i].mark.None? && states[j].mark.Some? && states[j].mark.value.generation < first.policy.generation
  {
    LaterDecision(host, states, actions, i, j, first, later);
    MarkNeverFalls(host, states, actions, i, j);
    hide IsRun;
  }

  // ---------- the back-fills to blame ----------

  /** A seed becomes the mark although a record of a higher generation is stored. */
  ghost predicate StaleBackfill(host: Host, s: State, a: Action) {
    && a.Backfill? && s.mark.None?
    && exists e :: host.AuthenticAt(s.records, e) && a.seed.generation < host.PolicyAt(s.records, e).generation
  }

  /** Any other step that sets the mark sets it to at least every stored generation. */
  lemma FirstMarkCovers(host: Host, s: State, a: Action, e: nat)
    requires Enabled(s, a) && s.mark.None? && Next(host, s, a).mark.Some? && !StaleBackfill(host, s, a)
    requires host.AuthenticAt(s.records, e)
    ensures host.PolicyAt(s.records, e).generation <= Next(host, s, a).mark.value.generation
  {
    var top := host.StoredMaximum(s.records);
    assert host.AtLeast(s.records, top.value, e);
  }

  lemma {:induction false} MarkSetAt(host: Host, states: seq<State>, actions: seq<Action>, i: nat, j: nat) returns (k: nat)
    requires IsRun(host, states, actions) && i <= j < |states| && states[i].mark.None? && states[j].mark.Some?
    ensures i <= k < j && states[k].mark.None? && states[k + 1].mark.Some?
    decreases j
  {
    if states[j - 1].mark.None? {
      k := j - 1;
    } else {
      k := MarkSetAt(host, states, actions, i, j - 1);
    }
  }

  ghost predicate NoneStale(host: Host, states: seq<State>, actions: seq<Action>)
    requires |states| > |actions|
  {
    forall k | 0 <= k < |actions| :: !StaleBackfill(host, states[k], actions[k])
  }

  /** No two decisions of the run, in order, rest on falling generations. */
  ghost predicate NeverFallsBack(host: Host, states: seq<State>) {
    forall i: nat, j: nat, first: Basis, later: Basis
      | i <= j < |states| && first.Rests? && Decides(host, states[i], first) && Decides(host, states[j], later) ::
      later.Rests? && first.policy.generation <= later.policy.generation
  }

  lemma CoveredPair(host: Host, states: seq<State>, actions: seq<Action>, i: nat, j: nat, first: Basis, later: Basis)
    requires host.DigestsBind() && IsRun(host, states, actions) && i <= j < |states|
    requires NoneStale(host, states, actions)
    requires first.Rests? && Decides(host, states[i], first) && Decides(host, states[j], later)
    ensures later.Rests? && first.policy.generation <= later.policy.generation
  {
    hide Decides, StaleBackfill;
    FallsBackExactly(host, states, actions, i, j, first, later);
    if states[i].mark.None? && states[j].mark.Some? {
      var k := MarkSetAt(host, states, actions, i, j);
      AuthenticFirst(host, states[i], first);
      AuthenticStay(host, states, actions, i, k, first.eventId);
      FirstMarkCovers(host, states[k], actions[k], first.eventId);
      MarkNeverFalls(host, states, actions, k + 1, j);
    }
  }

  lemma AuthenticFirst(host: Host, s: State, first: Basis)
    requires first.Rests? && Decides(host, s, first)
    ensures host.AuthenticAt(s.records, first.eventId) && host.PolicyAt(s.records, first.eventId) == first.policy
  {
  }

  /** The newest of some records. */
  lemma NewestOf(events: set<nat>) returns (t: nat)
    requires events != {}
    ensures t in events && forall e | e in events :: e <= t
  {
    t :| t in events;
    if events != {t} {
      var rest := NewestOf(events - {t});
      assert forall e | e in events :: e == t || e in events - {t};
      t := if t < rest then rest else t;
    }
  }

  /** A decision at a mark that a stored record carries. */
  lemma DecisionAtMark(host: Host, s: State) returns (basis: Basis)
    requires host.DigestsBind() && s.mark.Some? && IsBacked(host, s.records, s.mark.value)
    ensures basis.Rests? && Decides(host, s, basis) && basis.policy.generation == s.mark.value.generation
  {
    var e :| Backs(host, s.records, s.mark.value, e);
    var events := set x | x in s.records && host.Carries(s.records, s.mark.value.digest, x);
    assert e in events;
    var t := NewestOf(events);
    assert forall x: nat | host.Carries(s.records, s.mark.value.digest, x) :: x in events;
    assert host.IsNewestCarrying(s.records, s.mark.value.digest, t);
    basis := Rests(t, host.PolicyAt(s.records, t));
  }

  /** A stale back-fill makes the decision right after it fall below one right before it. */
  lemma StaleBackfillFalls(host: Host, states: seq<State>, actions: seq<Action>, k: nat)
    requires host.DigestsBind() && IsRun(host, states, actions) && k < |actions|
    requires StaleBackfill(host, states[k], actions[k])
    ensures !NeverFallsBack(host, states)
  {
    var s, t := states[k], states[k + 1];
    var e :| host.AuthenticAt(s.records, e) && actions[k].seed.generation < host.PolicyAt(s.records, e).generation;
    host.TopExists(s.records, e);
    var top :| host.IsTop(s.records, top);
    assert host.AtLeast(s.records, top, e);
    var first := Rests(top, host.PolicyAt(s.records, top));
    assert Decides(host, s, first);
    ReachableBacked(host, states, actions, k + 1);
    assert t == Next(host, s, actions[k]) && t.mark == Some(actions[k].seed);
    var later := DecisionAtMark(host, t);
    hide IsRun;
    assert states[k] == s && states[k + 1] == t && later.policy.generation < first.policy.generation;
  }

  /** For every run: decisions never fall back exactly when no back-fill is stale. */
  lemma DecisionsNeverFallExactly(host: Host, states: seq<State>, actions: seq<Action>)
    requires host.DigestsBind() && IsRun(host, states, actions)
    ensures NeverFallsBack(host, states) <==> NoneStale(host, states, actions)
  {
    hide Decides, StaleBackfill, Next;
    if NoneStale(host, states, actions) {
      forall i: nat, j: nat, first: Basis, later: Basis
        | i <= j < |states| && first.Rests? && Decides(host, states[i], first) && Decides(host, states[j], later)
        ensures later.Rests? && first.policy.generation <= later.policy.generation
      {
        CoveredPair(host, states, actions, i, j, first, later);
      }
    } else {
      var k :| 0 <= k < |actions| && StaleBackfill(host, states[k], actions[k]);
      StaleBackfillFalls(host, states, actions, k);
    }
  }

  // ---------- where a stale back-fill comes from ----------

  /** The full scan of a release found this seed. */
  ghost predicate Scanned(host: Host, s: State, a: Action, seed: Mark) {
    && a.Release? && s.mark.None? && host.StoredMaximum(s.records).Some?
    && seed == host.MarkAt(s.records, host.StoredMaximum(s.records).value)
  }

  lemma {:induction false} SeedWasScanned(host: Host, states: seq<State>, actions: seq<Action>, k: nat, seed: Mark)
      returns (m: nat)
    requires IsRun(host, states, actions) && k < |states| && seed in states[k].seeds
    ensures m < k && m < |actions| && Scanned(host, states[m], actions[m], seed)
  {
    assert states[k] == Next(host, states[k - 1], actions[k - 1]);
    if seed in states[k - 1].seeds {
      m := SeedWasScanned(host, states, actions, k - 1, seed);
    } else {
      m := k - 1;
    }
  }

  /** Without a mark, only an out-of-band write makes a record authentic. */
  lemma {:induction false} WrittenOutOfBand(host: Host, states: seq<State>, actions: seq<Action>, m: nat, k: nat, e: nat)
      returns (n: nat)
    requires IsRun(host, states, actions) && m <= k < |states| && states[k].mark.None?
    requires !host.AuthenticAt(states[m].records, e) && host.AuthenticAt(states[k].records, e)
    ensures m <= n < k && actions[n] == OutOfBand(e, states[k].records[e])
    decreases k
  {
    var s, a := states[k - 1], actions[k - 1];
    assert states[k] == Next(host, s, a) && Enabled(s, a);
    if host.AuthenticAt(s.records, e) {
      assert s.mark.None?;
      n := WrittenOutOfBand(host, states, actions, m, k - 1, e);
      assert states[k].records[e] == s.records[e];
    } else {
      n := k - 1;
    }
  }

  /** An out-of-band write of an authenticated policy above the seed's. */
  ghost predicate WritesHigher(host: Host, a: Action, seed: Mark) {
    a.OutOfBand? && Authentic(host.classify(a.record)) && seed.generation < host.classify(a.record).policy.value.generation
  }

  lemma HigherWasMissing(host: Host, s: State, a: Action, seed: Mark, e: nat)
    requires Scanned(host, s, a, seed)
    requires host.AuthenticAt(s.records, e) ==> seed.generation < host.PolicyAt(s.records, e).generation
    ensures !host.AuthenticAt(s.records, e)
  {
  }

  /** A back-fill without a mark is stale exactly when a higher policy was written out of
      band after the scan that found its seed. */
  lemma StaleBackfillExactly(host: Host, states: seq<State>, actions: seq<Action>, k: nat)
    requires IsRun(host, states, actions) && k < |actions| && actions[k].Backfill? && states[k].mark.None?
    ensures StaleBackfill(host, states[k], actions[k]) <==>
      exists m, n :: 0 <= m <= n < k && Scanned(host, states[m], actions[m], actions[k].seed)
                     && WritesHigher(host, actions[n], actions[k].seed)
  {
    var s, seed := states[k], actions[k].seed;
    if StaleBackfill(host, s, actions[k]) {
      var e :| host.AuthenticAt(s.records, e) && seed.generation < host.PolicyAt(s.records, e).generation;
      var m := SeedWasScanned(host, states, actions, k, seed);
      if host.AuthenticAt(states[m].records, e) { AuthenticStay(host, states, actions, m, k, e); }
      HigherWasMissing(host, states[m], actions[m], seed, e);
      var n := WrittenOutOfBand(host, states, actions, m, k, e);
      assert WritesHigher(host, actions[n], seed);
    }
    if m: nat, n: nat :| m <= n < k && Scanned(host, states[m], actions[m], seed) && WritesHigher(host, actions[n], seed) {
      var e := actions[n].eventId;
      assert states[n + 1] == Next(host, states[n], actions[n]);
      AuthenticStay(host, states, actions, n + 1, k, e);
    }
  }
}
