/**
 * The policy generation of the stored record. It never falls, and every newly saved
 * resealing raises it, in every run whose resealings sign a policy and whose
 * investigators are named. Module LineageLimits shows that both are needed.
 */
module Generations {
  import opened Bytes
  import opened Policies
  import opened Lineage

  /** What history prefix order means for the policies of two written records. */
  ghost predicate Ranked(a: Record, b: Record) {
    a.history <= b.history ==>
      && Generation(a) <= Generation(b)
      && (a.history == b.history ==> a == b)
      && (Generation(a) == Generation(b) ==> GoverningFields(a) == GoverningFields(b))
  }

  ghost predicate AllRanked(records: set<Record>) {
    forall a, b | a in records && b in records :: Ranked(a, b)
  }

  /** A record was built from `loaded` by adding one event. */
  predicate AddsOne(loaded: Record, built: Record) {
    loaded.history <= built.history && |built.history| == |loaded.history| + 1
  }

  /** A built record adds one event; a resealing's also raises the generation. */
  ghost predicate Raises(session: Session) {
    match session
    case Sealing(_, _, _) => true
    case Unsealing(loaded, built, _) => built.Some? ==> AddsOne(loaded, built.value)
    case Resealing(loaded, built, _) =>
      built.Some? ==> AddsOne(loaded, built.value) && Generation(loaded) < Generation(built.value)
  }

  ghost predicate RankedInvariant(s: State) {
    Invariant(s) && AllRanked(s.written) && AllRaise(s.sessions)
  }

  ghost predicate AllRaise(sessions: map<nat, Session>) {
    forall id | id in sessions :: Raises(sessions[id])
  }

  /** The runs considered: every resealing signs, every investigator has a name. */
  ghost predicate SignedAndNamed(actions: seq<Action>) {
    forall i | 0 <= i < |actions| :: Named(actions[i]) && ResealsSign(actions[i])
  }

  lemma AddedIsRanked(s: State, parent: Record, r: Record, e: Event)
    requires Invariant(s) && AllRanked(s.written) && parent in s.written && e !in s.events
    requires r.history == parent.history + [e]
    requires GoverningFields(r) == GoverningFields(parent) || Generation(parent) < Generation(r)
    ensures AllRanked(s.written + {r})
  {
    hide Ranked, SessionHolds, ModesFollowHistory;
    forall a, b | a in s.written + {r} && b in s.written + {r} ensures Ranked(a, b) {
      AddedPairIsRanked(s, parent, r, e, a, b);
    }
  }

  lemma AddedPairIsRanked(s: State, parent: Record, r: Record, e: Event, a: Record, b: Record)
    requires Invariant(s) && AllRanked(s.written) && parent in s.written && e !in s.events
    requires r.history == parent.history + [e]
    requires GoverningFields(r) == GoverningFields(parent) || Generation(parent) < Generation(r)
    requires (a in s.written || a == r) && (b in s.written || b == r)
    ensures Ranked(a, b)
  {
    hide SessionHolds, ModesFollowHistory, WellFormed;
    if a in s.written {
      FreshEventIsLast(s.events, parent.history, e, a);
      assert Ranked(a, parent);
    }
    if b in s.written {
      FreshEventIsLast(s.events, parent.history, e, b);
    }
  }

  lemma SealedIsRanked(s: State, r: Record, e: Event)
    requires Invariant(s) && AllRanked(s.written) && e !in s.events && r.history == [e]
    ensures AllRanked(s.written + {r})
  {
    hide SessionHolds, ModesFollowHistory;
    assert [] + [e] == [e];
    forall a, b | a in s.written + {r} && b in s.written + {r} ensures Ranked(a, b) {
      if a != r { FreshEventIsLast(s.events, [], e, a); }
      if b != r { FreshEventIsLast(s.events, [], e, b); }
    }
  }

  lemma UpdatedRaise(sessions: map<nat, Session>, id: nat, session: Session)
    requires AllRaise(sessions) && Raises(session)
    ensures AllRaise(sessions[id := session])
  {
  }

  lemma SessionRaises(sessions: map<nat, Session>, row: Row, id: nat)
    requires AllRaise(sessions) && id in sessions
    ensures Split(sessions[id]).Some? ==> AllRaise(sessions[id := Split(sessions[id]).value])
    ensures AllRaise(sessions[id := Check(row, sessions[id])])
  {
  }

  lemma StepKeepsRanked(s: State, a: Action)
    requires RankedInvariant(s) && Enabled(s, a) && Named(a) && ResealsSign(a)
    ensures RankedInvariant(Next(s, a))
  {
    StepKeepsInvariant(s, a);
    hide AllRanked, Invariant, AllRaise, BuildReseal, MayUnseal, MayReseal, RowAfterSave, ToSave, Split, Check;
    match a
    case S4(id, e, investigator, mode, terms, claims) =>
      var record := BuildSeal(e, investigator, mode, terms);
      if record.Some? {
        SealedIsRanked(s, record.value, e);
        UpdatedRaise(s.sessions, id, Sealing(claims, record.value, None));
      }
    case U6(id, e, investigator) =>
      if id in s.sessions && s.sessions[id].Unsealing? { UnsealIsRanked(s, id, e, investigator); }
    case R6(id, e, investigator, terms) =>
      if id in s.sessions && s.sessions[id].Resealing? { ResealIsRanked(s, id, e, investigator, terms); }
    case CreateCase =>
    case U3(id, file) => UpdatedRaise(s.sessions, id, Unsealing(file, None, None));
    case R1(id, file) => UpdatedRaise(s.sessions, id, Resealing(file, None, None));
    case S6(id) => if id in s.sessions { SessionRaises(s.sessions, s.row, id); }
    case R7(id) => if id in s.sessions { SessionRaises(s.sessions, s.row, id); }
    case U7Check(id) => if id in s.sessions { SessionRaises(s.sessions, s.row, id); }
    case S7(id) =>
    case U7Save(id) =>
    case R8(id) =>
  }

  lemma UnsealIsRanked(s: State, id: nat, e: Event, investigator: string)
    requires RankedInvariant(s) && e !in s.events && investigator != ""
    requires id in s.sessions && s.sessions[id].Unsealing?
    ensures var t := Next(s, U6(id, e, investigator)); AllRanked(t.written) && AllRaise(t.sessions)
  {
    var loaded := s.sessions[id].loaded;
    assert loaded in s.written by {
      assert SessionHolds(s.written, s.row, s.sessions[id]);
    }
    var built := BuildUnseal(loaded, e, investigator);
    AddedIsRanked(s, loaded, built, e);
    UpdatedRaise(s.sessions, id, Unsealing(loaded, Some(built), None));
  }

  lemma ResealIsRanked(s: State, id: nat, e: Event, investigator: string, terms: Terms)
    requires RankedInvariant(s) && e !in s.events && investigator != "" && terms.signs
    requires id in s.sessions && s.sessions[id].Resealing?
    ensures var t := Next(s, R6(id, e, investigator, terms)); AllRanked(t.written) && AllRaise(t.sessions)
  {
    var loaded := s.sessions[id].loaded;
    assert loaded in s.written by {
      assert SessionHolds(s.written, s.row, s.sessions[id]);
    }
    var built := BuildReseal(s.row, loaded, e, investigator, terms);
    if built.Some? {
      AddedIsRanked(s, loaded, built.value, e);
      UpdatedRaise(s.sessions, id, Resealing(loaded, built, s.sessions[id].splitBy));
    }
  }

  lemma {:induction false} ReachableRanked(states: seq<State>, actions: seq<Action>, i: nat)
    requires IsRun(states, actions) && SignedAndNamed(actions) && i < |states|
    ensures RankedInvariant(states[i])
  {
    hide RankedInvariant, Next, Enabled;
    if i == 0 {
      EmptyRanked();
    } else {
      ReachableRanked(states, actions, i - 1);
      StepKeepsRanked(states[i - 1], actions[i - 1]);
    }
  }

  lemma EmptyRanked()
    ensures RankedInvariant(INITIAL)
  {
  }

  /** The stored generation never falls over any stretch of such a run. */
  lemma {:induction false} GenerationNeverFalls(states: seq<State>, actions: seq<Action>, i: nat, j: nat)
    requires IsRun(states, actions) && SignedAndNamed(actions) && i <= j < |states|
    ensures StoredGeneration(states[i].row) <= StoredGeneration(states[j].row)
  {
    ReachableRanked(states, actions, i);
    ReachableRanked(states, actions, j);
    StoredLineage(states, actions, i, j);
    if states[i].row.Stored? {
      WrittenGrows(states, actions, i, j);
      assert Ranked(states[i].row.record, states[j].row.record);
    }
  }

  lemma {:induction false} WrittenGrows(states: seq<State>, actions: seq<Action>, i: nat, j: nat)
    requires IsRun(states, actions) && i <= j < |states|
    ensures states[i].written <= states[j].written
    decreases j
  {
    if i < j {
      WrittenGrows(states, actions, i, j - 1);
      assert states[j] == Next(states[j - 1], actions[j - 1]);
    }
  }

  /** Saving a resealing that changes the row raises the stored generation strictly. */
  lemma NewResealRaisesAt(s: State, id: nat)
    requires RankedInvariant(s) && id in s.sessions && s.sessions[id].Resealing?
    requires Next(s, R8(id)).row != s.row
    ensures StoredGeneration(s.row) < StoredGeneration(Next(s, R8(id)).row)
  {
    hide Invariant, AllRanked;
    assert Next(s, R8(id)) == Saves(s, id) && Raises(s.sessions[id]);
    if s.row.Stored? {
      var loaded, built := s.sessions[id].loaded, s.sessions[id].built.value;
      assert Ranked(s.row.record, built) && Ranked(s.row.record, loaded) by {
        BothWritten(s, id);
      }
      PrefixShorter(s.row.record.history, loaded.history, built.history);
    }
  }

  /** Every newly saved resealing of such a run raises the stored generation strictly. */
  lemma NewResealRaises(states: seq<State>, actions: seq<Action>, i: nat, id: nat)
    requires IsRun(states, actions) && SignedAndNamed(actions) && i < |actions|
    requires actions[i] == R8(id) && id in states[i].sessions && states[i].sessions[id].Resealing?
    requires states[i + 1].row != states[i].row
    ensures StoredGeneration(states[i].row) < StoredGeneration(states[i + 1].row)
  {
    hide Next, RankedInvariant;
    ReachableRanked(states, actions, i);
    NewResealRaisesAt(states[i], id);
  }

  lemma BothWritten(s: State, id: nat)
    requires RankedInvariant(s) && id in s.sessions && s.row.Stored?
    requires s.sessions[id].Resealing? && s.sessions[id].built.Some?
    ensures Ranked(s.row.record, s.sessions[id].built.value) && Ranked(s.row.record, s.sessions[id].loaded)
  {
  }

  lemma PrefixShorter(a: seq<Event>, b: seq<Event>, c: seq<Event>)
    requires a <= c && b <= c
    ensures |a| <= |b| ==> a <= b
    ensures |a| == |c| ==> a == c
  {
  }
}
