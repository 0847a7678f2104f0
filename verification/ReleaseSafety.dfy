/**
 * Selection and gate together, over whole runs: what a release of a seal with a mark
 * or an enrollment can rest on, whatever has been written to its records since.
 */
module ReleaseSafety {
  import opened Bytes
  import opened Policies
  import opened RecordSelection
  import opened SelectionRuns
  import opened Shares
  import opened Gate

  /** What `select_record` hands to the gate. */
  function Selected(host: Host, records: Records, basis: Basis, caPinned: bool, newest: Selection): Selection
    requires basis.Rests? ==> host.AuthenticAt(records, basis.eventId)
  {
    match basis
    case Rests(e, policy) => Selection(host.classify(records[e]).status, Some(policy), false)
    case DeniedEverywhere => Selection(if caPinned then Invalid else Unverifiable, None, true)
    case Fallback => newest
  }

  /** The seal as the runs see it, with what a scan found and may still write as the mark. */
  ghost function StateOf(host: Host, records: Records, mark: Option<Mark>, enrolled: bool, seeds: set<Mark>): State {
    State(records, mark, enrolled, seeds, {})
  }

  /** It does: what the runs call a decision is what `select_record` returns, and what it
      writes is a release of the runs, with a back-fill of what its scan found. */
  method SelectForRelease(rows: SealRows, listing: seq<(nat, string)>, caPinned: bool, enrolls: bool, seeds: bool)
    returns (selection: Selection, ghost basis: Basis)
    requires rows.host.NewestFirst(listing, rows.records)
    modifies rows
    ensures rows.records == old(rows.records)
    ensures rows.host.Decides(rows.records, old(rows.mark), old(rows.enrolled), basis)
    ensures var s := StateOf(rows.host, rows.records, old(rows.mark), old(rows.enrolled), {});
      var t := Next(rows.host, s, Release(enrolls));
      && rows.enrolled == t.enrolled
      && (if seeds && t.seeds != {} then exists seed <- t.seeds :: rows.mark == Next(rows.host, t, Backfill(seed)).mark
          else rows.mark == t.mark)
    ensures selection == Selected(rows.host, rows.records, basis, caPinned,
              if listing == [] then Selection(RecordMissing, None, false) else rows.host.classify(listing[0].1))
  {
    selection, basis := rows.SelectRecord(listing, caPinned, enrolls, seeds);
  }

  /** A released key matches the commitment of an authenticated policy of the seal. */
  ghost predicate Backed(site: Site, basis: Basis, ending: Ending) {
    ending.Released? ==> basis.Rests? && site.commits(ending.key, basis.policy.commitment)
  }

  lemma AuthenticReleaseCommits(site: Site, s2: string, reason: string, operator: string, rows: seq<StoredShare>,
                                found: Selection)
    requires Authentic(found)
    ensures forall ending | ending in {DecideStandard(site, s2, found), DecideTimelock(site, s2, found),
                                       DecideAdmin(site, reason, operator, rows, found)} ::
      ending.Released? ==> site.commits(ending.key, found.policy.value.commitment)
  {
    hide DecideStandard, DecideTimelock, DecideAdmin, StandardMayRelease, TimelockMayRelease, AdminMayRelease;
    StandardIsExact(site, s2, found);
    TimelockIsExact(site, s2, found);
    AdminIsExact(site, reason, operator, rows, found);
  }

  /** Once a seal has a mark or an enrollment, no path ever releases a key that does not
      match the commitment of an authenticated policy; with a mark, that policy is of at
      least the mark's generation. Unauthenticated, replayed and out-of-band records do
      not change this. */
  lemma MarkedReleasesAreBacked(host: Host, states: seq<State>, actions: seq<Action>, i: nat, j: nat, basis: Basis,
                                caPinned: bool, newest: Selection, site: Site, s2: string,
                                reason: string, operator: string, rows: seq<StoredShare>)
    requires host.DigestsBind() && IsRun(host, states, actions) && i <= j < |states|
    requires Decides(host, states[j], basis) && (states[i].mark.Some? || states[i].enrolled)
    ensures var found := Selected(host, states[j].records, basis, caPinned, newest);
      && Backed(site, basis, DecideStandard(site, s2, found))
      && Backed(site, basis, DecideTimelock(site, s2, found))
      && Backed(site, basis, DecideAdmin(site, reason, operator, rows, found))
    ensures states[i].mark.Some? && basis.Rests? ==> states[i].mark.value.generation <= basis.policy.generation
  {
    hide DecideStandard, DecideTimelock, DecideAdmin;
    NoFallbackNoRollback(host, states, actions, i, j, basis);
    var found := Selected(host, states[j].records, basis, caPinned, newest);
    if basis.Rests? {
      AuthenticReleaseCommits(site, s2, reason, operator, rows, found);
    } else {
      EnrolledDenialIsEverywhere(site, s2, reason, operator, rows, found.status);
    }
  }
}
