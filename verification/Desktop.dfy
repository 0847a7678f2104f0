/**
 * The desktop's seal store and its sealing, unsealing and resealing processes as
 * objects that update their own fields. A process taken through its steps in order
 * takes the steps of the runs of module Lineage; loading or building again keeps what
 * later steps left, as the code does.
 */
module Desktop {
  import opened Bytes
  import opened Policies
  import opened Lineage

  class SealStore {
    var row: Row

    constructor ()
      ensures row == NoRow
    {
      row := NoRow;
    }

    /** `_require_same_seal`: only a continuation of the stored history, or the
        registration it claims, is replaced. */
    method RequireSameSeal(r: Record, claims: bool) returns (outcome: SaveOutcome)
      ensures outcome == SaveCheck(row, r, claims)
      ensures outcome.Saved? <==> (row.Stored? ==> row.record.history <= r.history) && (row.Placeholder? ==> claims)
      ensures outcome.StaleRecord? <==>
        && row.Stored? && !(row.record.history <= r.history)
        && row.record.history != [] && r.history != [] && row.record.history[0] == r.history[0]
    {
      if row.NoRow? { return Saved; }
      if row.Placeholder? {
        if claims { return Saved; }
        return SealIdConflict;
      }
      var stored, events := row.record.history, r.history;
      if |stored| <= |events| && events[..|stored|] == stored { return Saved; }
      if |stored| > 0 && |events| > 0 && stored[0] == events[0] { return StaleRecord; }
      return SealIdConflict;
    }

    /** `save_seal_bundle`: check and write in one transaction. */
    method SaveSealBundle(r: Record, claims: bool) returns (outcome: SaveOutcome)
      modifies this
      ensures outcome == SaveCheck(old(row), r, claims)
      ensures row == RowAfterSave(old(row), r, claims)
      ensures row == if outcome.Saved? then Stored(r) else old(row)
      ensures RowGrows(old(row), row)
    {
      outcome := RequireSameSeal(r, claims);
      if outcome.Saved? { row := Stored(r); }
    }

    /** `save_seal_record` with its lineage rule; it never claims a registration. */
    method SaveSealRecord(r: Record) returns (outcome: SaveOutcome)
      modifies this
      ensures outcome == SaveCheck(old(row), r, false)
      ensures row == RowAfterSave(old(row), r, false)
      ensures row == if outcome.Saved? then Stored(r) else old(row)
      ensures RowGrows(old(row), row)
    {
      outcome := RequireSameSeal(r, false);
      if outcome.Saved? { row := Stored(r); }
    }

    method CreateCase()
      modifies this
      ensures row == if old(row).NoRow? then Placeholder else old(row)
    {
      if row.NoRow? { row := Placeholder; }
    }

    /** `next_policy_generation`: one above both the loaded and the stored record. */
    method NextPolicyGeneration(loaded: Record) returns (generation: Option<nat>)
      ensures generation == NextGeneration(row, loaded)
      ensures generation.Some? ==>
        && generation.value > Generation(loaded) && generation.value > StoredGeneration(row)
        && generation.value <= MAX_POLICY_GENERATION
    {
      var previous := 0;
      if loaded.policy.Some? { previous := loaded.policy.value.generation; }
      if row.Stored? && row.record.policy.Some? && row.record.policy.value.generation > previous {
        previous := row.record.policy.value.generation;
      }
      if previous >= MAX_POLICY_GENERATION { return None; }
      return Some(previous + 1);
    }
  }

  /** `state["r1"]`, `state["r6"]` and `state["r7"]` of a resealing. */
  class ResealProcess {
    const store: SealStore
    var r1: Option<Record>
    var r6: Option<Record>
    var r7: Option<Mode>

    constructor (store: SealStore)
      ensures this.store == store && r1.None? && r6.None? && r7.None?
    {
      this.store := store;
      r1, r6, r7 := None, None, None;
    }

    function View(): Session
      requires r1.Some?
      reads this
    {
      Resealing(r1.value, r6, r7)
    }

    method RunR1Load(file: Record) returns (ok: bool)
      modifies this
      ensures ok == MayReseal(store.row, file)
      ensures ok <==>
        && PolicyAgrees(file)
        && (store.row.Stored? ==>
              && var stored := store.row.record;
              && PolicyAgrees(stored) && stored.mode == file.mode && stored.history <= file.history)
      ensures r1 == if ok then Some(file) else old(r1)
      ensures r6 == old(r6) && r7 == old(r7)
      ensures ok && old(r6).None? && old(r7).None? ==> View() == Resealing(file, None, None)
    {
      ok := ModeReadable(file);
      if store.row.Stored? {
        var stored := store.row.record;
        ok := ok && ModeReadable(stored) && stored.mode == file.mode && stored.history <= file.history;
      }
      if ok { r1 := Some(file); }
    }

    /** Nothing is kept of a record that a step refuses. */
    method RunR6Record(e: Event, investigator: string, terms: Terms) returns (ok: bool)
      requires r1.Some?
      modifies this
      ensures r1 == old(r1) && r7 == old(r7)
      ensures ok == BuildReseal(store.row, r1.value, e, investigator, terms).Some?
      ensures r6 == if ok then BuildReseal(store.row, r1.value, e, investigator, terms) else old(r6)
      ensures ok ==>
        && r6.Some? && HistoryAfter(r1.value.history, e, investigator, r6.value.history)
        && r6.value.mode == r1.value.mode && r6.value.unlockTime == terms.unlockTime && r6.value.commitment == terms.commitment
        && (if terms.signs
            then r6.value.policy.Some? && r6.value.policy.value.mode == r1.value.mode && r6.value.policy.value.text == terms.text
                 && r6.value.policy.value.generation == Max(Generation(r1.value), StoredGeneration(store.row)) + 1
            else r6.value.policy.None? && !r1.value.mode.Strict?)
    {
      var loaded := r1.value;
      var history := loaded.history;
      if investigator != "" { history := history + [e]; }
      var record := Record(history, loaded.mode, terms.unlockTime, terms.commitment, None);
      var generation := store.NextPolicyGeneration(loaded);
      if generation.None? { return false; }
      if terms.signs {
        record := record.(policy := Some(SignedPolicy(generation.value, record.mode, terms.text)));
      }
      if record.mode.Strict? && record.policy.None? { return false; }
      r6 := Some(record);
      return true;
    }

    method RunR7SplitKey() returns (ok: bool)
      requires r1.Some? && r6.Some?
      modifies this
      ensures ok == Split(old(View())).Some?
      ensures r1 == old(r1)
      ensures View() == if ok then Split(old(View())).value else old(View())
      ensures ok <==> PolicyAgrees(r1.value) && PolicyAgrees(r6.value) && r6.value.mode == r1.value.mode
      ensures r6 == old(r6) && r7 == if ok then Some(r6.value.mode) else old(r7)
    {
      var loaded, built := r1.value, r6.value;
      ok := ModeReadable(loaded) && ModeReadable(built) && built.mode == loaded.mode;
      if ok { r7 := Some(built.mode); }
    }

    /** Required: R1, R6 and R7 are done. */
    method RunR8Save() returns (outcome: SaveOutcome)
      requires r1.Some? && r6.Some? && r7.Some?
      modifies store
      ensures ToSave(View()) == Some((r6.value, false))
      ensures outcome == SaveCheck(old(store.row), r6.value, false)
      ensures store.row == RowAfterSave(old(store.row), r6.value, false)
    {
      outcome := store.SaveSealBundle(r6.value, false);
    }
  }

  /** `state["u3"]` and `state["u6"]` of an unsealing; `checked` is the row that U7 compared with. */
  class UnsealProcess {
    const store: SealStore
    var u3: Option<Record>
    var u6: Option<Record>
    var checked: Option<Row>

    constructor (store: SealStore)
      ensures this.store == store && u3.None? && u6.None? && checked.None?
    {
      this.store := store;
      u3, u6, checked := None, None, None;
    }

    function View(): Session
      requires u3.Some?
      reads this
    {
      Unsealing(u3.value, u6, checked)
    }

    method RunU3Validate(file: Record) returns (ok: bool)
      modifies this
      ensures ok == MayUnseal(store.row, file)
      ensures ok <==>
        && PolicyAgrees(file)
        && (store.row.Stored? ==>
              && var stored := store.row.record;
              && PolicyAgrees(stored) && SameGoverning(stored, file) && stored.history <= file.history)
      ensures u3 == if ok then Some(file) else old(u3)
      ensures u6 == old(u6) && checked == old(checked)
      ensures ok && old(u6).None? && old(checked).None? ==> View() == Unsealing(file, None, None)
    {
      ok := ModeReadable(file);
      if ok && store.row.Stored? {
        var stored := store.row.record;
        ok := ModeReadable(stored) && GoverningFields(stored) == GoverningFields(file) && stored.history <= file.history;
      }
      if ok { u3 := Some(file); }
    }

    method RunU6Record(e: Event, investigator: string)
      requires u3.Some?
      modifies this
      ensures u3 == old(u3)
      ensures View() == Unsealing(old(u3).value, Some(BuildUnseal(old(u3).value, e, investigator)), None)
      ensures SameGoverning(u3.value, u6.value) && HistoryAfter(u3.value.history, e, investigator, u6.value.history)
    {
      var record := u3.value;
      if investigator != "" { record := record.(history := record.history + [e]); }
      u6, checked := Some(record), None;
    }

    /** The first half of `run_u7_save`, before the write lock is taken. */
    method CheckUnsealSave() returns (ok: bool)
      requires u3.Some? && u6.Some?
      modifies this
      ensures u3 == old(u3)
      ensures View() == Check(store.row, old(View()))
      ensures ok == checked.Some?
      ensures ok <==>
        SameGoverning(u3.value, u6.value) && (store.row.Stored? ==> SameGoverning(store.row.record, u6.value))
    {
      var loaded, built := u3.value, u6.value;
      ok := GoverningFields(loaded) == GoverningFields(built);
      if ok && store.row.Stored? { ok := GoverningFields(store.row.record) == GoverningFields(built); }
      checked := if ok then Some(store.row) else None;
    }

    /** The second half, under the write lock. */
    method SaveChecked() returns (outcome: SaveOutcome)
      requires u3.Some? && u6.Some? && checked.Some?
      modifies store
      ensures ToSave(View()) == Some((u6.value, false))
      ensures outcome == SaveCheck(old(store.row), u6.value, false)
      ensures store.row == RowAfterSave(old(store.row), u6.value, false)
    {
      outcome := store.SaveSealRecord(u6.value);
    }
  }

  /** `state["s4"]` and `state["s6"]` of a sealing, whose configuration says whether it
      claims a registered case and in which mode it seals. */
  class SealProcess {
    const store: SealStore
    const claims: bool
    const mode: Mode
    var s4: Option<Record>
    var s6: Option<Mode>

    /** The built record is of the configured mode, and so is the split of its key. */
    ghost predicate Valid()
      reads this
    {
      (s4.Some? ==> s4.value.mode == mode) && (s6.Some? ==> s6.value == mode)
    }

    constructor (store: SealStore, claims: bool, mode: Mode)
      ensures this.store == store && this.claims == claims && this.mode == mode && s4.None? && s6.None?
      ensures Valid()
    {
      this.store, this.claims, this.mode := store, claims, mode;
      s4, s6 := None, None;
    }

    function View(): Session
      requires s4.Some?
      reads this
    {
      Sealing(claims, s4.value, s6)
    }

    method RunS4(e: Event, investigator: string, terms: Terms) returns (ok: bool)
      requires Valid()
      modifies this
      ensures Valid() && s6 == old(s6)
      ensures ok == BuildSeal(e, investigator, mode, terms).Some?
      ensures s4 == if ok then BuildSeal(e, investigator, mode, terms) else old(s4)
      ensures ok <==> investigator != "" && (mode.Strict? ==> terms.signs)
      ensures ok ==>
        && s4.Some? && s4.value.history == [e] && s4.value.mode == mode
        && s4.value.unlockTime == terms.unlockTime && s4.value.commitment == terms.commitment
        && s4.value.policy == if terms.signs then Some(SignedPolicy(1, mode, terms.text)) else None
    {
      if investigator == "" { return false; }
      var record := Record([e], mode, terms.unlockTime, terms.commitment, None);
      if terms.signs {
        record := record.(policy := Some(SignedPolicy(FIRST_POLICY_GENERATION, mode, terms.text)));
      }
      if mode.Strict? && record.policy.None? { return false; }
      s4 := Some(record);
      return true;
    }

    method RunS6()
      requires Valid() && s4.Some?
      modifies this
      ensures Valid() && s4 == old(s4)
      ensures Some(View()) == Split(old(View()))
    {
      s6 := Some(mode);
    }

    /** What is saved is of the mode its key was split by. */
    method RunS7() returns (outcome: SaveOutcome)
      requires Valid() && s4.Some? && s6.Some?
      modifies store
      ensures ToSave(View()) == Some((s4.value, claims)) && s6.value == s4.value.mode
      ensures outcome == SaveCheck(old(store.row), s4.value, claims)
      ensures store.row == RowAfterSave(old(store.row), s4.value, claims)
    {
      outcome := store.SaveSealBundle(s4.value, claims);
    }
  }
}
