/**
 * The governing fields of the stored record under unseal saves. A save whose check saw
 * a stored record leaves them unchanged in every run whose investigators are named.
 */
module Governing {
  import opened Bytes
  import opened Policies
  import opened Lineage

  /** Whatever lies between two records with the same governing fields has them too. */
  ghost predicate Between(a: Record, m: Record, b: Record) {
    a.history <= m.history && m.history <= b.history && GoverningFields(a) == GoverningFields(b) ==>
      GoverningFields(m) == GoverningFields(a)
  }

  ghost predicate AllBetween(records: set<Record>) {
    forall a, m, b | a in records && m in records && b in records :: Between(a, m, b)
  }

  /** The key of a built resealing is committed to by nothing that it continues. */
  ghost predicate KeyIsFresh(written: set<Record>, session: Session) {
    session.Resealing? && session.built.Some? ==>
      FreshCommitment(written, session.loaded, session.built.value.commitment)
  }

  ghost predicate AllKeysFresh(written: set<Record>, sessions: map<nat, Session>) {
    forall id | id in sessions :: KeyIsFresh(written, sessions[id])
  }

  ghost predicate GoverningInvariant(s: State) {
    Invariant(s) && AllBetween(s.written) && AllKeysFresh(s.written, s.sessions)
  }

  ghost predicate AllNamed(actions: seq<Action>) {
    forall i | 0 <= i < |actions| :: Named(actions[i])
  }

  /** A new record continues `parent`, with its governing fields or a fresh key. */
  ghost predicate Extends(s: State, parent: Record, r: Record, e: Event) {
    && parent in s.written && e !in s.events && r.history == parent.history + [e]
    && (GoverningFields(r) == GoverningFields(parent) || FreshCommitment(s.written, parent, r.commitment))
  }

  lemma ExtensionIsBetween(s: State, parent: Record, r: Record, e: Event, a: Record, m: Record, b: Record)
    requires Invariant(s) && AllBetween(s.written) && Extends(s, parent, r, e)
    requires (a in s.written || a == r) && (m in s.written || m == r) && (b in s.written || b == r)
    ensures Between(a, m, b)
  {
    hide SessionHolds, ModesFollowHistory, WellFormed;
    if a in s.written { FreshEventIsLast(s.events, parent.history, e, a); }
    if m in s.written { FreshEventIsLast(s.events, parent.history, e, m); }
    if b in s.written {
      FreshEventIsLast(s.events, parent.history, e, b);
    } else if a in s.written && m in s.written {
      assert Between(a, m, parent);
    }
  }

  lemma ExtensionKeepsBetween(s: State, parent: Record, r: Record, e: Event)
    requires Invariant(s) && AllBetween(s.written) && Extends(s, parent, r, e)
    ensures AllBetween(s.written + {r})
  {
    hide Between, Invariant, Extends;
    forall a, m, b | a in s.written + {r} && m in s.written + {r} && b in s.written + {r} ensures Between(a, m, b) {
      ExtensionIsBetween(s, parent, r, e, a, m, b);
    }
  }

  lemma SealKeepsBetween(s: State, r: Record, e: Event)
    requires Invariant(s) && AllBetween(s.written) && e !in s.events && r.history == [e]
    ensures AllBetween(s.written + {r})
  {
    hide SessionHolds, ModesFollowHistory;
    assert [] + [e] == [e];
    forall a | a in s.written ensures !(r.history <= a.history) && !(a.history <= r.history) {
      FreshEventIsLast(s.events, [], e, a);
    }
  }

  /** What a new event is part of continues nothing that was loaded before. */
  lemma KeysStayFresh(s: State, base: seq<Event>, e: Event, r: Record)
    requires Invariant(s) && AllKeysFresh(s.written, s.sessions) && e !in s.events && r.history == base + [e]
    ensures AllKeysFresh(s.written + {r}, s.sessions)
  {
    hide ModesFollowHistory;
    forall id | id in s.sessions ensures KeyIsFresh(s.written + {r}, s.sessions[id]) {
      var session := s.sessions[id];
      assert SessionHolds(s.written, s.row, session) && KeyIsFresh(s.written, session);
      if session.Resealing? { FreshEventIsLast(s.events, base, e, session.loaded); }
    }
  }

  lemma UpdatedKeysFresh(written: set<Record>, sessions: map<nat, Session>, id: nat, session: Session)
    requires AllKeysFresh(written, sessions) && KeyIsFresh(written, session)
    ensures AllKeysFresh(written, sessions[id := session])
  {
  }

  lemma SealStep(s: State, id: nat, claims: bool, r: Record, e: Event)
    requires GoverningInvariant(s) && e !in s.events && r.history == [e]
    ensures var t := Wrote(s, id, Sealing(claims, r, None), e, r); AllBetween(t.written) && AllKeysFresh(t.written, t.sessions)
  {
    assert [] + [e] == [e];
    SealKeepsBetween(s, r, e);
    KeysStayFresh(s, [], e, r);
    hide Invariant, AllBetween, AllKeysFresh;
    UpdatedKeysFresh(s.written + {r}, s.sessions, id, Sealing(claims, r, None));
  }

  lemma UnsealStep(s: State, id: nat, e: Event, investigator: string)
    requires GoverningInvariant(s) && e !in s.events && investigator != ""
    requires id in s.sessions && s.sessions[id].Unsealing?
    ensures var t := Next(s, U6(id, e, investigator)); AllBetween(t.written) && AllKeysFresh(t.written, t.sessions)
  {
    var loaded := s.sessions[id].loaded;
    assert SessionHolds(s.written, s.row, s.sessions[id]);
    hide Invariant, AllBetween, AllKeysFresh;
    var built := BuildUnseal(loaded, e, investigator);
    ExtensionKeepsBetween(s, loaded, built, e);
    KeysStayFresh(s, loaded.history, e, built);
    UpdatedKeysFresh(s.written + {built}, s.sessions, id, Unsealing(loaded, Some(built), None));
  }

  lemma ResealStep(s: State, id: nat, e: Event, investigator: string, terms: Terms)
    requires GoverningInvariant(s) && e !in s.events && investigator != "" && FreshKey(s, id, terms.commitment)
    requires id in s.sessions && s.sessions[id].Resealing?
    ensures var t := Next(s, R6(id, e, investigator, terms)); AllBetween(t.written) && AllKeysFresh(t.written, t.sessions)
  {
    var session := s.sessions[id];
    var loaded := session.loaded;
    assert SessionHolds(s.written, s.row, session) && KeyIsFresh(s.written, session) && WellFormed(loaded, s.events);
    hide Invariant, AllBetween, AllKeysFresh;
    var built := BuildReseal(s.row, loaded, e, investigator, terms);
    if built.Some? {
      var r := built.value;
      ExtensionKeepsBetween(s, loaded, r, e);
      KeysStayFresh(s, loaded.history, e, r);
      UpdatedKeysFresh(s.written + {r}, s.sessions, id, Resealing(loaded, built, session.splitBy));
    }
  }

  lemma OtherSession(s: State, id: nat)
    requires AllKeysFresh(s.written, s.sessions) && id in s.sessions
    ensures AllKeysFresh(s.written, Splits(s, id).sessions)
    ensures AllKeysFresh(s.written, s.sessions[id := Check(s.row, s.sessions[id])])
  {
  }

  lemma StepKeepsGoverning(s: State, a: Action)
    requires GoverningInvariant(s) && Enabled(s, a) && Named(a)
    ensures GoverningInvariant(Next(s, a))
  {
    StepKeepsInvariant(s, a);
    hide AllBetween, Invariant, AllKeysFresh, FreshKey, BuildReseal, MayUnseal, MayReseal, RowAfterSave, ToSave, Split, Check;
    match a
    case S4(id, e, investigator, mode, terms, claims) =>
      var record := BuildSeal(e, investigator, mode, terms);
      if record.Some? { SealStep(s, id, claims, record.value, e); }
    case U6(id, e, investigator) =>
      if id in s.sessions && s.sessions[id].Unsealing? { UnsealStep(s, id, e, investigator); }
    case R6(id, e, investigator, terms) =>
      if id in s.sessions && s.sessions[id].Resealing? { ResealStep(s, id, e, investigator, terms); }
    case CreateCase =>
    case U3(id, file) => UpdatedKeysFresh(s.written, s.sessions, id, Unsealing(file, None, None));
    case R1(id, file) => UpdatedKeysFresh(s.written, s.sessions, id, Resealing(file, None, None));
    case S6(id) => if id in s.sessions { OtherSession(s, id); }
    case R7(id) => if id in s.sessions { OtherSession(s, id); }
    case U7Check(id) => if id in s.sessions { OtherSession(s, id); }
    case S7(id) =>
    case U7Save(id) =>
    case R8(id) =>
  }

  lemma {:induction false} ReachableGoverning(states: seq<State>, actions: seq<Action>, i: nat)
    requires IsRun(states, actions) && AllNamed(actions) && i < |states|
    ensures GoverningInvariant(states[i])
  {
    hide GoverningInvariant, Next, Enabled;
    if i == 0 {
      EmptyGoverning();
    } else {
      ReachableGoverning(states, actions, i - 1);
      StepKeepsGoverning(states[i - 1], actions[i - 1]);
    }
  }

  lemma EmptyGoverning()
    ensures GoverningInvariant(INITIAL)
  {
  }

  /** The session's check saw a stored record. */
  predicate CheckedStored(s: State, id: nat) {
    id in s.sessions && s.sessions[id].Unsealing? && s.sessions[id].checked.Some? && s.sessions[id].checked.value.Stored?
  }

  lemma CheckedUnsealKeepsGoverningAt(s: State, id: nat)
    requires GoverningInvariant(s) && CheckedStored(s, id)
    ensures s.row.Stored? && Next(s, U7Save(id)).row.Stored?
    ensures GoverningFields(Next(s, U7Save(id)).row.record) == GoverningFields(s.row.record)
  {
    assert Next(s, U7Save(id)) == Saves(s, id);
    assert SessionHolds(s.written, s.row, s.sessions[id]);
    var checked, built := s.sessions[id].checked.value.record, s.sessions[id].built.value;
    assert Between(checked, s.row.record, built) by { hide Invariant; }
    hide Invariant, AllBetween, AllKeysFresh;
  }

  /** With named investigators, an unsealing whose check saw a stored record leaves every
      governing field of the record it replaces unchanged, however the row moved since. */
  lemma CheckedUnsealKeepsGoverning(states: seq<State>, actions: seq<Action>, i: nat, id: nat)
    requires IsRun(states, actions) && AllNamed(actions) && i < |actions|
    requires actions[i] == U7Save(id) && CheckedStored(states[i], id)
    ensures states[i].row.Stored? && states[i + 1].row.Stored?
    ensures GoverningFields(states[i + 1].row.record) == GoverningFields(states[i].row.record)
    ensures SameGoverning(states[i].row.record, states[i + 1].row.record)
  {
    hide GoverningInvariant, Next;
    ReachableGoverning(states, actions, i);
    CheckedUnsealKeepsGoverningAt(states[i], id);
  }
}
