/**
 * Scans that read the event ids first and each record later, while sync admission goes
 * on: what they choose was the top policy at some moment of the scan, so a release may
 * be treated as one step of the runs.
 */
module InterleavedScans {
  import opened Bytes
  import opened Policies
  import opened RecordSelection
  import opened SelectionRuns

  /** What a scan saw that read the event ids in state `m` and each record between then and state `b`. */
  ghost predicate SeenDuring(states: seq<State>, seen: Records, m: nat, b: nat)
    requires m <= b < |states|
  {
    && seen.Keys == states[m].records.Keys
    && forall e | e in seen :: exists k :: m <= k <= b && e in states[k].records && seen[e] == states[k].records[e]
  }

  /** The policy of the record seen at `t` is the top policy of this state. */
  ghost predicate CarriesTop(host: Host, s: State, seen: Records, t: nat)
    requires host.AuthenticAt(seen, t)
  {
    TopIs(host, s.records, host.PolicyAt(seen, t).generation, host.PolicyAt(seen, t).digest)
  }

  /** A record that an admission made authentic carries the mark's policy right after it. */
  lemma AdmittedIsMark(host: Host, s: State, a: Action, e: nat)
    requires Enabled(s, a) && !a.OutOfBand?
    requires !host.AuthenticAt(s.records, e) && host.AuthenticAt(Next(host, s, a).records, e)
    ensures var t := Next(host, s, a);
      && t.mark.Some? && t.mark.value.generation == host.PolicyAt(t.records, e).generation
      && t.mark.value.digest == host.PolicyAt(t.records, e).digest
  {
  }

  lemma {:induction false} BecameAuthentic(host: Host, states: seq<State>, actions: seq<Action>, m: nat, k: nat, e: nat)
      returns (n: nat)
    requires IsRun(host, states, actions) && m <= k < |states|
    requires !host.AuthenticAt(states[m].records, e) && host.AuthenticAt(states[k].records, e)
    ensures m <= n < k && !host.AuthenticAt(states[n].records, e) && host.AuthenticAt(states[n + 1].records, e)
    decreases k
  {
    n := k - 1;
    if host.AuthenticAt(states[k - 1].records, e) {
      n := BecameAuthentic(host, states, actions, m, k - 1, e);
    }
  }

  /** A record that became authentic after state `m` had the top policy when it did. */
  lemma AdmittedWasTop(host: Host, states: seq<State>, actions: seq<Action>, m: nat, k: nat, e: nat) returns (n: nat)
    requires IsRun(host, states, actions) && SyncOnly(actions) && m <= k < |states|
    requires !host.AuthenticAt(states[m].records, e) && host.AuthenticAt(states[k].records, e)
    ensures m < n <= k && states[n].mark.Some? && states[k].mark.Some?
    ensures TopIs(host, states[n].records, host.PolicyAt(states[k].records, e).generation,
                  host.PolicyAt(states[k].records, e).digest)
  {
    var before := BecameAuthentic(host, states, actions, m, k, e);
    n := before + 1;
    AdmittedIsMark(host, states[before], actions[before], e);
    ReachableMarkIsTop(host, states, actions, n);
    AuthenticStay(host, states, actions, n, k, e);
    MarkNeverFalls(host, states, actions, n, k);
  }

  /** A scan sees every record that was authentic from its start as it was. */
  lemma SeenAsStored(host: Host, states: seq<State>, actions: seq<Action>, seen: Records, m: nat, b: nat, e: nat)
    requires IsRun(host, states, actions) && m <= b < |states| && SeenDuring(states, seen, m, b)
    requires host.AuthenticAt(states[m].records, e)
    ensures host.AuthenticAt(seen, e) && host.PolicyAt(seen, e) == host.PolicyAt(states[m].records, e)
  {
    assert e in seen;
    var k :| m <= k <= b && e in states[k].records && seen[e] == states[k].records[e];
    AuthenticStay(host, states, actions, m, k, e);
  }

  /** A full scan's choice: its policy was the top one at some moment of the scan; and if
      the seal still has no mark in the end, it is the top record then. */
  lemma FullScanWasTop(host: Host, states: seq<State>, actions: seq<Action>, seen: Records, m: nat, b: nat, t: nat)
    requires IsRun(host, states, actions) && SyncOnly(actions) && m <= b < |states| && SeenDuring(states, seen, m, b)
    requires host.IsTop(seen, t)
    ensures exists k :: m <= k <= b && CarriesTop(host, states[k], seen, t)
    ensures states[b].mark.None? ==> host.IsTop(states[b].records, t)
  {
    var k :| m <= k <= b && t in states[k].records && seen[t] == states[k].records[t];
    if host.AuthenticAt(states[m].records, t) {
      TopAtStart(host, states, actions, seen, m, b, t);
      if states[b].mark.None? { TopAtEnd(host, states, actions, m, b, t); }
    } else {
      var n := AdmittedWasTop(host, states, actions, m, k, t);
      MarkNeverFalls(host, states, actions, n, b);
    }
  }

  lemma TopAtStart(host: Host, states: seq<State>, actions: seq<Action>, seen: Records, m: nat, b: nat, t: nat)
    requires IsRun(host, states, actions) && m <= b < |states| && SeenDuring(states, seen, m, b)
    requires host.IsTop(seen, t) && host.AuthenticAt(states[m].records, t)
    ensures host.PolicyAt(seen, t) == host.PolicyAt(states[m].records, t) && host.IsTop(states[m].records, t)
  {
    SeenAsStored(host, states, actions, seen, m, b, t);
    forall x | host.AuthenticAt(states[m].records, x) ensures host.AtLeast(states[m].records, t, x) {
      SeenAsStored(host, states, actions, seen, m, b, x);
      assert host.AtLeast(seen, t, x);
    }
  }

  lemma TopAtEnd(host: Host, states: seq<State>, actions: seq<Action>, m: nat, b: nat, t: nat)
    requires IsRun(host, states, actions) && SyncOnly(actions) && m <= b < |states| && states[b].mark.None?
    requires host.IsTop(states[m].records, t)
    ensures host.IsTop(states[b].records, t)
  {
    AuthenticStay(host, states, actions, m, b, t);
    forall x | host.AuthenticAt(states[b].records, x) ensures host.AtLeast(states[b].records, t, x) {
      if !host.AuthenticAt(states[m].records, x) {
        var n := AdmittedWasTop(host, states, actions, m, b, x);
      } else {
        AuthenticStay(host, states, actions, m, b, x);
        assert host.AtLeast(states[m].records, t, x);
      }
    }
  }

  /** A full scan that finds nothing: no record was authentic when it started. */
  lemma EmptyFullScan(host: Host, states: seq<State>, actions: seq<Action>, seen: Records, m: nat, b: nat)
    requires IsRun(host, states, actions) && m <= b < |states| && SeenDuring(states, seen, m, b)
    requires forall e :: !host.AuthenticAt(seen, e)
    ensures forall e :: !host.AuthenticAt(states[m].records, e)
  {
    forall e ensures !host.AuthenticAt(states[m].records, e) {
      if host.AuthenticAt(states[m].records, e) { SeenAsStored(host, states, actions, seen, m, b, e); }
    }
  }

  /** A scan down to a mark read in state `a`: it finds a record, and what it finds carries
      the policy that was the top one when the mark was read. */
  lemma MarkScanWasTop(host: Host, states: seq<State>, actions: seq<Action>, seen: Records, a: nat, m: nat, b: nat)
    requires host.DigestsBind() && IsRun(host, states, actions) && SyncOnly(actions)
    requires a <= m <= b < |states| && SeenDuring(states, seen, m, b) && states[a].mark.Some?
    ensures exists e :: host.Carries(seen, states[a].mark.value.digest, e)
    ensures forall t: nat | host.IsNewestCarrying(seen, states[a].mark.value.digest, t) ::
      CarriesTop(host, states[a], seen, t)
  {
    ReachableMarkIsTop(host, states, actions, a);
    var mark := states[a].mark.value;
    var top: nat :| host.IsTop(states[a].records, top)
      && host.PolicyAt(states[a].records, top).generation == mark.generation
      && host.PolicyAt(states[a].records, top).digest == mark.digest;
    AuthenticStay(host, states, actions, a, m, top);
    SeenAsStored(host, states, actions, seen, m, b, top);
    hide IsRun, SyncOnly, SeenDuring;
    assert host.Carries(seen, mark.digest, top);
    assert TopIs(host, states[a].records, mark.generation, mark.digest);
    forall t: nat | host.IsNewestCarrying(seen, mark.digest, t)
      ensures host.PolicyAt(seen, t).generation == mark.generation && host.PolicyAt(seen, t).digest == mark.digest
    {
      assert host.Carries(seen, mark.digest, t);
    }
  }
}
