/**
 * Exactly which runs keep the lineage promises: those whose resealings sign a policy,
 * whose investigators are named and whose unseal checks saw a stored record, each where
 * it matters. For every other family of runs a reachable state breaks the promise.
 */
module LineageLimits {
  import opened Bytes
  import opened Policies
  import opened Lineage
  import opened Generations
  import opened Governing

  // ---------- families of runs ----------

  const SEALING := Terms("", "k0", true, "")
  const SEALED := Record([0], Standard, "", "k0", Some(SignedPolicy(1, Standard, "")))

  ghost predicate Allowed(a: Action, signed: bool, named: bool) {
    (signed ==> ResealsSign(a)) && (named ==> Named(a))
  }

  /** Some run leads to `s`; its resealings all sign, or its investigators are all named. */
  ghost predicate Reachable(s: State, signed: bool, named: bool) {
    exists states: seq<State>, actions: seq<Action> | IsRun(states, actions) ::
      && states[|actions|] == s
      && forall i | 0 <= i < |actions| :: Allowed(actions[i], signed, named)
  }

  lemma Then(s: State, a: Action, signed: bool, named: bool)
    requires Reachable(s, signed, named) && Enabled(s, a) && Allowed(a, signed, named)
    ensures Reachable(Next(s, a), signed, named)
  {
    hide Next, Enabled, Allowed;
    var states: seq<State>, actions: seq<Action> :| IsRun(states, actions) && states[|actions|] == s
      && forall i | 0 <= i < |actions| :: Allowed(actions[i], signed, named);
    var states', actions' := states + [Next(s, a)], actions + [a];
    assert IsRun(states', actions') && states'[|actions'|] == Next(s, a);
  }

  lemma ReachableAnyway(s: State, signed: bool, named: bool, signed': bool, named': bool)
    requires Reachable(s, signed, named) && (signed' ==> signed) && (named' ==> named)
    ensures Reachable(s, signed', named')
  {
    hide Next, Enabled, ResealsSign, Named;
  }

  /** The three promises, over all runs of a family. */
  ghost predicate NeverFalls(signed: bool, named: bool) {
    forall s, a | Reachable(s, signed, named) && Enabled(s, a) && Allowed(a, signed, named) ::
      StoredGeneration(s.row) <= StoredGeneration(Next(s, a).row)
  }

  ghost predicate ResealsRaise(signed: bool, named: bool) {
    forall s, id: nat | Reachable(s, signed, named) && id in s.sessions && s.sessions[id].Resealing?
      && Next(s, R8(id)).row != s.row :: StoredGeneration(s.row) < StoredGeneration(Next(s, R8(id)).row)
  }

  /** `seen`: only unseal saves whose check saw a stored record. */
  ghost predicate UnsealsKeepGoverning(signed: bool, named: bool, seen: bool) {
    forall s, id: nat | Reachable(s, signed, named) && id in s.sessions && s.sessions[id].Unsealing?
      && s.row.Stored? && (seen ==> CheckedStored(s, id)) ::
      Next(s, U7Save(id)).row.Stored?
      && GoverningFields(Next(s, U7Save(id)).row.record) == GoverningFields(s.row.record)
  }

  lemma SignedAndNamedAreRanked(s: State)
    requires Reachable(s, true, true)
    ensures RankedInvariant(s)
  {
    hide Next, Enabled, ResealsSign, Named, RankedInvariant;
    var states: seq<State>, actions: seq<Action> :| IsRun(states, actions) && states[|actions|] == s
      && forall i | 0 <= i < |actions| :: Allowed(actions[i], true, true);
    ReachableRanked(states, actions, |actions|);
  }

  lemma NamedAreGoverned(s: State, signed: bool)
    requires Reachable(s, signed, true)
    ensures GoverningInvariant(s)
  {
    hide Next, Enabled, ResealsSign, Named, GoverningInvariant;
    var states: seq<State>, actions: seq<Action> :| IsRun(states, actions) && states[|actions|] == s
      && forall i | 0 <= i < |actions| :: Allowed(actions[i], signed, true);
    ReachableGoverning(states, actions, |actions|);
  }

  // ---------- reachable states that break a promise ----------

  /** A sealing of generation 1, built by session 1 and not yet saved. */
  lemma BuiltSeal(signed: bool, named: bool) returns (s: State)
    ensures s == State(NoRow, {SEALED}, map[1 := Sealing(false, SEALED, None)], {0})
    ensures Reachable(s, signed, named)
  {
    assert IsRun([INITIAL], []);
    Then(INITIAL, S4(1, 0, "A", Standard, SEALING, false), signed, named);
    s := Next(INITIAL, S4(1, 0, "A", Standard, SEALING, false));
  }

  /** That sealing saved by its session. */
  lemma SavedSeal(s: State, signed: bool, named: bool) returns (t: State)
    requires Reachable(s, signed, named) && s.row.NoRow?
    requires 1 in s.sessions && s.sessions[1] == Sealing(false, SEALED, None)
    ensures t == State(Stored(SEALED), s.written, s.sessions[1 := Sealing(false, SEALED, Some(Standard))], s.events)
    ensures Reachable(t, signed, named)
  {
    Then(s, S6(1), signed, named);
    var split := Next(s, S6(1));
    assert split.sessions[1] == Sealing(false, SEALED, Some(Standard));
    Then(split, S7(1), signed, named);
    t := Next(split, S7(1));
  }

  /** A resealing session that has loaded `file` and built a record from it. */
  lemma BuiltReseal(s: State, id: nat, file: Record, e: Event, investigator: string, terms: Terms,
                    signed: bool, named: bool)
      returns (t: State, built: Record)
    requires Reachable(s, signed, named) && MayReseal(s.row, file) && file in s.written && e !in s.events
    requires (signed ==> terms.signs) && (named ==> investigator != "")
    requires BuildReseal(s.row, file, e, investigator, terms).Some? && FreshCommitment(s.written, file, terms.commitment)
    ensures Some(built) == BuildReseal(s.row, file, e, investigator, terms)
    ensures t == Wrote(s, id, Resealing(file, Some(built), None), e, built)
    ensures Reachable(t, signed, named)
  {
    hide MayReseal, BuildReseal;
    Then(s, R1(id, file), signed, named);
    var loaded := Next(s, R1(id, file));
    Then(loaded, R6(id, e, investigator, terms), signed, named);
    t := Next(loaded, R6(id, e, investigator, terms));
    built := BuildReseal(s.row, file, e, investigator, terms).value;
  }

  /** That session after splitting its new key. */
  lemma SplitReseal(s: State, id: nat, loaded: Record, built: Record, signed: bool, named: bool) returns (t: State)
    requires Reachable(s, signed, named) && id in s.sessions
    requires s.sessions[id] == Resealing(loaded, Some(built), None)
    requires ModeReadable(loaded) && ModeReadable(built) && loaded.mode == built.mode
    ensures t == WithSession(s, id, Resealing(loaded, Some(built), Some(built.mode)))
    ensures Reachable(t, signed, named)
  {
    Then(s, R7(id), signed, named);
    t := Next(s, R7(id));
  }

  /** A signed sealing resealed without a signer: the stored generation falls to 0. */
  lemma UnsignedResealLowers() returns (s: State, id: nat)
    ensures Reachable(s, false, true) && id in s.sessions && s.sessions[id].Resealing?
    ensures StoredGeneration(s.row) == 1 && StoredGeneration(Next(s, R8(id)).row) == 0
  {
    hide Reachable;
    var built;
    s := BuiltSeal(false, true);
    s := SavedSeal(s, false, true);
    s, built := BuiltReseal(s, 2, SEALED, 1, "A", Terms("", "k1", false, ""), false, true);
    s := SplitReseal(s, 2, SEALED, built, false, true);
    id := 2;
  }

  /** Two resealings of one record, one with a blank investigator: its history is not
      extended, so the other is still saved after it, without raising the generation. */
  lemma BlankInvestigatorStalls() returns (s: State, id: nat)
    ensures Reachable(s, true, false) && id in s.sessions && s.sessions[id].Resealing?
    ensures Next(s, R8(id)).row != s.row
    ensures StoredGeneration(s.row) == StoredGeneration(Next(s, R8(id)).row) == 2
  {
    s := BuiltSeal(true, false);
    s := SavedSeal(s, true, false);
    s := ReadyReseal(s, 2, 1, "A", "k1");
    s := ReadyReseal(s, 3, 2, "", "k2");
    var t := SavedBlank(s);
    s, id := t, 2;
  }

  function SecondOf(history: seq<Event>, commitment: string): Record {
    Record(history, Standard, "", commitment, Some(SignedPolicy(2, Standard, "")))
  }

  /** A resealing of the stored SEALED, ready to be saved. */
  lemma ReadyReseal(s: State, id: nat, e: Event, investigator: string, commitment: string) returns (t: State)
    requires Reachable(s, true, false) && s.row == Stored(SEALED) && SEALED in s.written && e !in s.events
    requires FreshCommitment(s.written, SEALED, commitment)
    ensures var built := SecondOf(AppendEvent([0], e, investigator), commitment);
      && Reachable(t, true, false) && t.row == s.row && t.written == s.written + {built} && t.events == s.events + {e}
      && t.sessions == s.sessions[id := Resealing(SEALED, Some(built), Some(Standard))]
  {
    var built;
    t, built := BuiltReseal(s, id, SEALED, e, investigator, Terms("", commitment, true, ""), true, false);
    t := SplitReseal(t, id, SEALED, built, true, false);
  }

  lemma SavedBlank(s: State) returns (t: State)
    requires Reachable(s, true, false) && s.row == Stored(SEALED) && 2 in s.sessions && 3 in s.sessions
    requires s.sessions[3] == Resealing(SEALED, Some(SecondOf([0], "k2")), Some(Standard))
    requires s.sessions[2] == Resealing(SEALED, Some(SecondOf([0] + [1], "k1")), Some(Standard))
    ensures Reachable(t, true, false) && t.sessions == s.sessions
    ensures t.row == Stored(SecondOf([0], "k2")) && Next(t, R8(2)).row == Stored(SecondOf([0] + [1], "k1"))
  {
    Then(s, R8(3), true, false);
    t := Next(s, R8(3));
  }

  /** An unsealing session that built a record and checked it against the row. */
  lemma CheckedUnseal(s: State, id: nat, file: Record, e: Event, signed: bool, named: bool) returns (t: State)
    requires Reachable(s, signed, named) && MayUnseal(s.row, file) && file in s.written && e !in s.events
    ensures Reachable(t, signed, named)
    ensures var built := BuildUnseal(file, e, "A");
      t == Wrote(s, id, Unsealing(file, Some(built), Some(s.row)), e, built)
  {
    hide Reachable, ModeReadable;
    Then(s, U3(id, file), signed, named);
    var loaded := Next(s, U3(id, file));
    Then(loaded, U6(id, e, "A"), signed, named);
    var built := Next(loaded, U6(id, e, "A"));
    Then(built, U7Check(id), signed, named);
    t := Next(built, U7Check(id));
  }

  /** An unsealing checked while no record was stored can replace a record stored
      since, and change its governing fields. */
  lemma UncheckedUnsealChangesGoverning() returns (s: State, id: nat)
    ensures Reachable(s, true, true) && id in s.sessions && s.sessions[id].Unsealing?
    ensures s.row.Stored? && Next(s, U7Save(id)).row.Stored?
    ensures GoverningFields(Next(s, U7Save(id)).row.record) != GoverningFields(s.row.record)
  {
    hide Reachable;
    var resealed;
    s := BuiltSeal(true, true);
    s, resealed := BuiltReseal(s, 2, SEALED, 1, "A", Terms("", "k1", true, ""), true, true);
    s := CheckedUnseal(s, 3, resealed, 2, true, true);
    id := 3;
    s := SavedSeal(s, true, true);
  }

  /** An unsealing is checked against the stored sealing, which a resealing with a blank
      investigator then replaces without extending its history. The unseal save passes:
      it changes the governing fields and lowers the stored generation from 2 to 1. */
  lemma BlankInvestigatorLowers() returns (s: State, id: nat)
    ensures Reachable(s, true, false) && CheckedStored(s, id)
    ensures s.row.Stored? && Next(s, U7Save(id)).row.Stored?
    ensures GoverningFields(Next(s, U7Save(id)).row.record) != GoverningFields(s.row.record)
    ensures StoredGeneration(s.row) == 2 && StoredGeneration(Next(s, U7Save(id)).row) == 1
  {
    hide Reachable;
    s := BuiltSeal(true, false);
    s := SavedSeal(s, true, false);
    s := CheckedUnseal(s, 2, SEALED, 1, true, false);
    s := ReadyReseal(s, 3, 2, "", "k2");
    s := SavedOverUnseal(s);
    id := 2;
  }

  lemma SavedOverUnseal(s: State) returns (t: State)
    requires Reachable(s, true, false) && s.row == Stored(SEALED) && 2 in s.sessions && 3 in s.sessions
    requires s.sessions[3] == Resealing(SEALED, Some(SecondOf([0], "k2")), Some(Standard))
    requires s.sessions[2] == Unsealing(SEALED, Some(BuildUnseal(SEALED, 1, "A")), Some(Stored(SEALED)))
    ensures Reachable(t, true, false) && t.sessions == s.sessions && t.row == Stored(SecondOf([0], "k2"))
    ensures Next(t, U7Save(2)).row == Stored(SEALED.(history := [0] + [1]))
  {
    Then(s, R8(3), true, false);
    t := Next(s, R8(3));
  }

  // ---------- the exact conditions ----------

  /** The stored generation never falls exactly when every resealing signs and every
      investigator is named. */
  lemma NeverFallsExactly(signed: bool, named: bool)
    ensures NeverFalls(signed, named) <==> signed && named
  {
    hide Reachable, Next, Enabled, RankedInvariant, CheckedStored;
    if !named {
      var s, id := BlankInvestigatorLowers();
      ReachableAnyway(s, true, false, signed, named);
      assert Allowed(U7Save(id), signed, named) && Enabled(s, U7Save(id)) by { SavesAreAllowed(s, id, signed, named); }
    } else if !signed {
      var s, id := UnsignedResealLowers();
      assert Allowed(R8(id), signed, named) && Enabled(s, R8(id)) by { SavesAreAllowed(s, id, signed, named); }
    } else {
      forall s, a | Reachable(s, signed, named) && Enabled(s, a) && Allowed(a, signed, named)
        ensures StoredGeneration(s.row) <= StoredGeneration(Next(s, a).row)
      {
        SignedAndNamedAreRanked(s);
        StepNeverLowers(s, a);
      }
    }
  }

  lemma SavesAreAllowed(s: State, id: nat, signed: bool, named: bool)
    ensures Allowed(U7Save(id), signed, named) && Enabled(s, U7Save(id))
    ensures Allowed(R8(id), signed, named) && Enabled(s, R8(id))
  {
  }

  lemma StepNeverLowers(s: State, a: Action)
    requires RankedInvariant(s) && Enabled(s, a) && Allowed(a, true, true)
    ensures StoredGeneration(s.row) <= StoredGeneration(Next(s, a).row)
  {
    StepKeepsRanked(s, a);
    StepContinues(s, a);
    var t := Next(s, a);
    assert s.written <= t.written;
    hide Next, Enabled, SessionHolds, ModesFollowHistory;
    if s.row.Stored? { assert Ranked(s.row.record, t.row.record); }
  }

  /** Every newly saved resealing raises it under exactly the same condition. */
  lemma ResealsRaiseExactly(signed: bool, named: bool)
    ensures ResealsRaise(signed, named) <==> signed && named
  {
    hide Reachable, Next, RankedInvariant;
    if !named {
      var s, id := BlankInvestigatorStalls();
      ReachableAnyway(s, true, false, signed, named);
    } else if !signed {
      var s, id := UnsignedResealLowers();
    } else {
      forall s, id: nat | Reachable(s, signed, named) && id in s.sessions && s.sessions[id].Resealing?
          && Next(s, R8(id)).row != s.row
        ensures StoredGeneration(s.row) < StoredGeneration(Next(s, R8(id)).row)
      {
        SignedAndNamedAreRanked(s);
        NewResealRaisesAt(s, id);
      }
    }
  }

  /** An unseal save leaves the governing fields of the stored record unchanged exactly
      when every investigator is named and its check saw a stored record, signed or not. */
  lemma UnsealsKeepGoverningExactly(signed: bool, named: bool, seen: bool)
    ensures UnsealsKeepGoverning(signed, named, seen) <==> named && seen
  {
    hide Reachable, Next, GoverningInvariant;
    if !named {
      var s, id := BlankInvestigatorLowers();
      ReachableAnyway(s, true, false, signed, named);
    } else if !seen {
      var s, id := UncheckedUnsealChangesGoverning();
      ReachableAnyway(s, true, true, signed, named);
    } else {
      forall s, id: nat | Reachable(s, signed, named) && CheckedStored(s, id)
        ensures Next(s, U7Save(id)).row.Stored?
        ensures s.row.Stored? && GoverningFields(Next(s, U7Save(id)).row.record) == GoverningFields(s.row.record)
      {
        NamedAreGoverned(s, signed);
        CheckedUnsealKeepsGoverningAt(s, id);
      }
    }
  }
}
