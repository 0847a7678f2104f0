/**
 * The desktop's stored record of one seal under concurrent sealing, unsealing and
 * resealing sessions, each of which loads any record file ever written and saves
 * later, under the write lock, what it built from it.
 */
module Lineage {
  import opened Bytes
  import opened Policies

  type Event = nat

  const MAX_POLICY_GENERATION: nat := 0x7FFF_FFFF
  const FIRST_POLICY_GENERATION: nat := 1

  datatype SignedPolicy = SignedPolicy(generation: nat, mode: Mode, text: string)

  datatype Record = Record(history: seq<Event>, mode: Mode, unlockTime: string, commitment: string,
                           policy: Option<SignedPolicy>)

  /** The seal's row: none, the placeholder of a registered case, or a record. */
  datatype Row = NoRow | Placeholder | Stored(record: Record)

  // ---------- seal_mode_guard.py and policy_generation.py ----------

  /** The fields an unsealing carries unchanged. */
  datatype Governing = Governing(mode: Mode, unlockTime: string, commitment: string, policy: Option<SignedPolicy>)

  function GoverningFields(r: Record): Governing {
    Governing(r.mode, r.unlockTime, r.commitment, r.policy)
  }

  /** `seal_mode_of`: readable only when a present policy names the same mode. */
  predicate ModeReadable(r: Record) {
    r.policy.Some? ==> r.policy.value.mode == r.mode
  }

  function Generation(r: Record): nat {
    if r.policy.Some? then r.policy.value.generation else 0
  }

  function StoredGeneration(row: Row): nat {
    if row.Stored? then Generation(row.record) else 0
  }

  /** The stored history is the start of this one. */
  predicate Continues(row: Row, r: Record) {
    row.Stored? ==> row.record.history <= r.history
  }

  /** `check_unseal_record` (U3). */
  predicate MayUnseal(row: Row, r: Record) {
    ModeReadable(r)
    && (row.Stored? ==> ModeReadable(row.record) && GoverningFields(row.record) == GoverningFields(r))
    && Continues(row, r)
  }

  /** `check_unseal_save` (U7, before the lock). */
  predicate MaySaveUnseal(row: Row, loaded: Record, built: Record) {
    GoverningFields(loaded) == GoverningFields(built)
    && (row.Stored? ==> GoverningFields(row.record) == GoverningFields(built))
  }

  /** `resolve_reseal_mode` and `check_reseal_lineage` (R1). */
  predicate MayReseal(row: Row, r: Record) {
    ModeReadable(r)
    && (row.Stored? ==> ModeReadable(row.record) && row.record.mode == r.mode)
    && Continues(row, r)
  }

  // ---------- sqlite_store.py ----------

  datatype SaveOutcome = Saved | StaleRecord | SealIdConflict

  /** `_require_same_seal`: whether the row may be replaced by `r`. */
  function SaveCheck(row: Row, r: Record, claims: bool): SaveOutcome {
    match row
    case NoRow => Saved
    case Placeholder => if claims then Saved else SealIdConflict
    case Stored(s) =>
      if s.history <= r.history then Saved
      else if s.history != [] && r.history != [] && s.history[0] == r.history[0] then StaleRecord
      else SealIdConflict
  }

  function RowAfterSave(row: Row, r: Record, claims: bool): Row {
    if SaveCheck(row, r, claims).Saved? then Stored(r) else row
  }

  // ---------- building records ----------

  /** `append_event` refuses a blank investigator; the callers then keep the history. */
  function AppendEvent(history: seq<Event>, e: Event, investigator: string): seq<Event> {
    if investigator == "" then history else history + [e]
  }

  function BuildUnseal(loaded: Record, e: Event, investigator: string): Record {
    loaded.(history := AppendEvent(loaded.history, e, investigator))
  }

  /** `next_policy_generation`; None when the generation space is exhausted. */
  function NextGeneration(row: Row, loaded: Record): Option<nat> {
    var previous := Max(Generation(loaded), StoredGeneration(row));
    if previous >= MAX_POLICY_GENERATION then None else Some(previous + 1)
  }

  /** What a sealing or resealing fixes: the new lock, commitment and, with a signer, policy. */
  datatype Terms = Terms(unlockTime: string, commitment: string, signs: bool, text: string)

  function Signed(terms: Terms, generation: nat, mode: Mode): Option<SignedPolicy> {
    if terms.signs then Some(SignedPolicy(generation, mode, terms.text)) else None
  }

  /** `run_r6_record`: None when it refuses (generations exhausted, strict without a policy). */
  function BuildReseal(row: Row, loaded: Record, e: Event, investigator: string, terms: Terms): Option<Record> {
    var generation := NextGeneration(row, loaded);
    if generation.None? || (loaded.mode.Strict? && !terms.signs) then None
    else Some(Record(AppendEvent(loaded.history, e, investigator), loaded.mode, terms.unlockTime,
                     terms.commitment, Signed(terms, generation.value, loaded.mode)))
  }

  /** `run_s4`: None when it refuses (no investigator for the first event, strict without a policy). */
  function BuildSeal(e: Event, investigator: string, mode: Mode, terms: Terms): Option<Record> {
    if investigator == "" || (mode.Strict? && !terms.signs) then None
    else Some(Record([e], mode, terms.unlockTime, terms.commitment, Signed(terms, FIRST_POLICY_GENERATION, mode)))
  }

  /** Exactly when a built reseal record raises the generation and extends the history. */
  lemma ResealRaisesExactly(row: Row, loaded: Record, e: Event, investigator: string, terms: Terms)
    requires BuildReseal(row, loaded, e, investigator, terms).Some?
    ensures var built := BuildReseal(row, loaded, e, investigator, terms).value;
      && (Generation(built) > Generation(loaded) && Generation(built) > StoredGeneration(row) <==> terms.signs)
      && (loaded.history < built.history <==> investigator != "")
  {
  }

  // ---------- the guards and builders, field by field ----------

  /** Two records agree in every field that an unsealing carries. */
  predicate SameGoverning(a: Record, b: Record) {
    a.mode == b.mode && a.unlockTime == b.unlockTime && a.commitment == b.commitment && a.policy == b.policy
  }

  lemma GoverningMeans(a: Record, b: Record)
    ensures GoverningFields(a) == GoverningFields(b) <==> SameGoverning(a, b)
  {
  }

  /** A present policy names the record's mode. */
  predicate PolicyAgrees(r: Record) {
    r.policy.None? || r.policy.value.mode == r.mode
  }

  /** What U3 and U7 refuse: any difference from the stored record in the four fields, a
      mode that its policy contradicts, a history that does not continue the stored one. */
  lemma UnsealGuards(stored: Record, loaded: Record, built: Record)
    ensures MayUnseal(Stored(stored), loaded) <==>
      PolicyAgrees(loaded) && PolicyAgrees(stored) && SameGoverning(stored, loaded) && stored.history <= loaded.history
    ensures forall row: Row | !row.Stored? :: MayUnseal(row, loaded) <==> PolicyAgrees(loaded)
    ensures MaySaveUnseal(Stored(stored), loaded, built) <==> SameGoverning(loaded, built) && SameGoverning(stored, built)
    ensures forall row: Row | !row.Stored? :: MaySaveUnseal(row, loaded, built) <==> SameGoverning(loaded, built)
    ensures MayReseal(Stored(stored), loaded) <==>
      PolicyAgrees(loaded) && PolicyAgrees(stored) && stored.mode == loaded.mode && stored.history <= loaded.history
    ensures forall row: Row | !row.Stored? :: MayReseal(row, loaded) <==> PolicyAgrees(loaded)
  {
  }

  /** The history after an event with this investigator. */
  predicate HistoryAfter(before: seq<Event>, e: Event, investigator: string, after: seq<Event>) {
    if investigator == "" then after == before else |after| == |before| + 1 && before <= after && after[|before|] == e
  }

  /** Every field of a record that a resealing builds, and exactly when it builds none. */
  lemma ResealBuilds(row: Row, loaded: Record, e: Event, investigator: string, terms: Terms)
    ensures var built := BuildReseal(row, loaded, e, investigator, terms);
      var above := if StoredGeneration(row) > Generation(loaded) then StoredGeneration(row) else Generation(loaded);
      && (built.None? <==> above >= 0x7FFF_FFFF || (loaded.mode.Strict? && !terms.signs))
      && (built.Some? ==>
            && HistoryAfter(loaded.history, e, investigator, built.value.history)
            && built.value.mode == loaded.mode && built.value.unlockTime == terms.unlockTime
            && built.value.commitment == terms.commitment
            && built.value.policy == if terms.signs then Some(SignedPolicy(above + 1, loaded.mode, terms.text)) else None)
  {
  }

  /** Every field of a record that an unsealing or a sealing builds. */
  lemma UnsealAndSealBuild(loaded: Record, e: Event, investigator: string, mode: Mode, terms: Terms)
    ensures var unsealed := BuildUnseal(loaded, e, investigator);
      HistoryAfter(loaded.history, e, investigator, unsealed.history) && SameGoverning(loaded, unsealed)
    ensures var sealed := BuildSeal(e, investigator, mode, terms);
      && (sealed.None? <==> investigator == "" || (mode.Strict? && !terms.signs))
      && (sealed.Some? ==>
            && sealed.value.history == [e] && sealed.value.mode == mode && sealed.value.unlockTime == terms.unlockTime
            && sealed.value.commitment == terms.commitment
            && sealed.value.policy == if terms.signs then Some(SignedPolicy(1, mode, terms.text)) else None)
  {
  }

  /** The generation of the stored record: its policy's, 0 without a policy or a record. */
  lemma StoredGenerationMeans(row: Row, r: Record, p: SignedPolicy)
    ensures row.NoRow? || row.Placeholder? ==> StoredGeneration(row) == 0
    ensures StoredGeneration(Stored(r.(policy := None))) == 0
    ensures StoredGeneration(Stored(r.(policy := Some(p)))) == p.generation
  {
  }

  /** When a save goes through, what it leaves, and why else it does not. */
  lemma SaveMeans(row: Row, r: Record, claims: bool)
    ensures SaveCheck(row, r, claims).Saved? <==>
      match row case NoRow => true case Placeholder => claims case Stored(s) => s.history <= r.history
    ensures SaveCheck(row, r, claims).StaleRecord? <==>
      && row.Stored? && !(row.record.history <= r.history)
      && row.record.history != [] && r.history != [] && row.record.history[0] == r.history[0]
    ensures RowAfterSave(row, r, claims) == if SaveCheck(row, r, claims).Saved? then Stored(r) else row
  {
  }

  // ---------- sessions ----------

  /** What a session holds between its steps. `checked` is the row that U7's
      check compared the unseal record with, `splitBy` the mode its key was split by. */
  datatype Session =
    | Sealing(claims: bool, record: Record, splitBy: Option<Mode>)
    | Unsealing(loaded: Record, built: Option<Record>, checked: Option<Row>)
    | Resealing(loaded: Record, built: Option<Record>, splitBy: Option<Mode>)

  datatype State = State(row: Row, written: set<Record>, sessions: map<nat, Session>, events: set<Event>)

  datatype Action =
    | CreateCase
    | S4(id: nat, event: Event, investigator: string, mode: Mode, terms: Terms, claims: bool)
    | S6(id: nat)
    | S7(id: nat)
    | U3(id: nat, file: Record)
    | U6(id: nat, event: Event, investigator: string)
    | U7Check(id: nat)
    | U7Save(id: nat)
    | R1(id: nat, file: Record)
    | R6(id: nat, event: Event, investigator: string, terms: Terms)
    | R7(id: nat)
    | R8(id: nat)

  /** No record that `loaded` continues commits to the same key. */
  predicate FreshCommitment(written: set<Record>, loaded: Record, commitment: string) {
    forall r | r in written && r.history <= loaded.history :: r.commitment != commitment
  }

  /** The key of a resealing is new, or the one its session already built a record for. */
  predicate FreshKey(s: State, id: nat, commitment: string) {
    id in s.sessions && s.sessions[id].Resealing? ==>
      || (s.sessions[id].built.Some? && s.sessions[id].built.value.commitment == commitment)
      || FreshCommitment(s.written, s.sessions[id].loaded, commitment)
  }

  /** Files are loaded only if some session wrote them; events are never repeated. */
  predicate Enabled(s: State, a: Action) {
    match a
    case S4(_, e, _, _, _, _) => e !in s.events
    case U3(_, file) => file in s.written
    case R1(_, file) => file in s.written
    case U6(_, e, _) => e !in s.events
    case R6(id, e, _, terms) => e !in s.events && FreshKey(s, id, terms.commitment)
    case _ => true
  }

  /** `run_s6`, `run_r7_split_key`: the key is split by the mode of the built record. */
  function Split(session: Session): Option<Session> {
    match session
    case Sealing(claims, record, _) => Some(Sealing(claims, record, Some(record.mode)))
    case Resealing(loaded, Some(built), _) =>
      if ModeReadable(loaded) && ModeReadable(built) && loaded.mode == built.mode
      then Some(Resealing(loaded, Some(built), Some(built.mode))) else None
    case _ => None
  }

  /** The record a session saves next, when it is ready to, and whether it claims the case. */
  function ToSave(session: Session): Option<(Record, bool)> {
    match session
    case Sealing(claims, record, Some(_)) => Some((record, claims))
    case Unsealing(_, Some(built), Some(_)) => Some((built, false))
    case Resealing(_, Some(built), Some(_)) => Some((built, false))
    case _ => None
  }

  /** U7's check, before the lock. */
  function Check(row: Row, session: Session): Session {
    match session
    case Unsealing(loaded, Some(built), _) =>
      Unsealing(loaded, Some(built), if MaySaveUnseal(row, loaded, built) then Some(row) else None)
    case _ => session
  }

  function WithSession(s: State, id: nat, session: Session): State {
    s.(sessions := s.sessions[id := session])
  }

  function Wrote(s: State, id: nat, session: Session, e: Event, r: Record): State {
    State(s.row, s.written + {r}, s.sessions[id := session], s.events + {e})
  }

  function Saves(s: State, id: nat): State {
    if id !in s.sessions || ToSave(s.sessions[id]).None? then s
    else
      var (r, claims) := ToSave(s.sessions[id]).value;
      s.(row := RowAfterSave(s.row, r, claims))
  }

  /** One step; a step that refuses, or that its session is not ready for, changes nothing. */
  function Next(s: State, a: Action): State {
    match a
    case CreateCase => if s.row.NoRow? then s.(row := Placeholder) else s
    case S4(id, e, investigator, mode, terms, claims) =>
      var record := BuildSeal(e, investigator, mode, terms);
      if record.None? then s else Wrote(s, id, Sealing(claims, record.value, None), e, record.value)
    case U3(id, file) => if MayUnseal(s.row, file) then WithSession(s, id, Unsealing(file, None, None)) else s
    case R1(id, file) => if MayReseal(s.row, file) then WithSession(s, id, Resealing(file, None, None)) else s
    case U6(id, e, investigator) =>
      if id in s.sessions && s.sessions[id].Unsealing? then
        var built := BuildUnseal(s.sessions[id].loaded, e, investigator);
        Wrote(s, id, Unsealing(s.sessions[id].loaded, Some(built), None), e, built)
      else s
    case R6(id, e, investigator, terms) =>
      if id in s.sessions && s.sessions[id].Resealing? then
        var built := BuildReseal(s.row, s.sessions[id].loaded, e, investigator, terms);
        if built.None? then s
        else Wrote(s, id, Resealing(s.sessions[id].loaded, built, s.sessions[id].splitBy), e, built.value)
      else s
    case S6(id) => Splits(s, id)
    case R7(id) => Splits(s, id)
    case U7Check(id) => if id in s.sessions then WithSession(s, id, Check(s.row, s.sessions[id])) else s
    case S7(id) => Saves(s, id)
    case U7Save(id) => Saves(s, id)
    case R8(id) => Saves(s, id)
  }

  function Splits(s: State, id: nat): State {
    if id !in s.sessions || Split(s.sessions[id]).None? then s
    else WithSession(s, id, Split(s.sessions[id]).value)
  }

  const INITIAL := State(NoRow, {}, map[], {})

  /** A case registers its seal once; a registration never replaces what is there, and only
      the bundle that claims it does. */
  lemma CaseCreated(s: State, r: Record)
    ensures var row := Next(s, CreateCase).row;
      if s.row.NoRow? then row.Placeholder? && SaveCheck(row, r, false).SealIdConflict? && SaveCheck(row, r, true).Saved?
      else row == s.row
  {
  }

  ghost predicate IsRun(states: seq<State>, actions: seq<Action>) {
    && |states| == |actions| + 1
    && states[0] == INITIAL
    && forall i | 0 <= i < |actions| :: Enabled(states[i], actions[i]) && states[i + 1] == Next(states[i], actions[i])
  }

  /** Every event is recorded: the investigator of an unsealing or resealing is named. */
  ghost predicate Named(a: Action) {
    (a.U6? || a.R6?) ==> a.investigator != ""
  }

  /** Every resealing signs a policy. */
  ghost predicate ResealsSign(a: Action) {
    a.R6? ==> a.terms.signs
  }

  // ---------- what every record and session keeps, in every run ----------

  /** History prefix order keeps the mode, over all records ever written. */
  ghost predicate ModesFollowHistory(records: set<Record>) {
    forall a, b | a in records && b in records && a.history <= b.history :: a.mode == b.mode
  }

  ghost predicate WellFormed(r: Record, events: set<Event>) {
    && r.history != [] && (forall i | 0 <= i < |r.history| :: r.history[i] in events)
    && ModeReadable(r) && (r.mode.Strict? ==> r.policy.Some?)
  }

  /** The stored history only grows by extension. */
  predicate RowGrows(before: Row, after: Row) {
    before.Stored? ==> after.Stored? && before.record.history <= after.record.history
  }

  /** What a session remembers of the records and rows it has seen. */
  ghost predicate SessionHolds(written: set<Record>, row: Row, session: Session) {
    match session
    case Sealing(_, record, splitBy) =>
      record in written && (splitBy.Some? ==> splitBy.value == record.mode)
    case Unsealing(loaded, built, checked) =>
      && loaded in written
      && (built.Some? ==> built.value in written && GoverningFields(built.value) == GoverningFields(loaded))
      && (checked.Some? ==> built.Some? && CheckedHolds(written, row, built.value, checked.value))
    case Resealing(loaded, built, splitBy) =>
      && loaded in written
      && (built.Some? ==> built.value in written && built.value.mode == loaded.mode)
      && (splitBy.Some? ==> built.Some? && splitBy.value == loaded.mode)
  }

  /** The row an unseal record was checked against agrees with it, and the stored
      history has only extended that row's since. */
  ghost predicate CheckedHolds(written: set<Record>, row: Row, built: Record, checked: Row) {
    && RowGrows(checked, row)
    && (checked.Stored? ==> checked.record in written && GoverningFields(checked.record) == GoverningFields(built))
  }

  ghost predicate Invariant(s: State) {
    && (forall r | r in s.written :: WellFormed(r, s.events))
    && ModesFollowHistory(s.written)
    && (s.row.Stored? ==> s.row.record in s.written)
    && (forall id | id in s.sessions :: SessionHolds(s.written, s.row, s.sessions[id]))
  }

  /** A history that a new event extends is a prefix of no older one, and whatever is
      a prefix of it is a prefix of what it extends. */
  lemma FreshEventIsLast(events: set<Event>, base: seq<Event>, e: Event, r: Record)
    requires e !in events && WellFormed(r, events)
    ensures !(base + [e] <= r.history)
    ensures r.history <= base + [e] ==> r.history <= base
  {
    assert forall i | 0 <= i < |r.history| :: r.history[i] != e;
    assert (base + [e])[|base|] == e;
  }

  lemma SessionStillHolds(written: set<Record>, row: Row, written': set<Record>, row': Row, session: Session)
    requires SessionHolds(written, row, session) && written <= written' && RowGrows(row, row')
    ensures SessionHolds(written', row', session)
  {
  }

  /** Adding a record that extends (or repeats) a written history keeps its mode along it. */
  lemma AddedKeepsModes(s: State, parent: Record, r: Record, e: Event, investigator: string)
    requires Invariant(s) && parent in s.written && e !in s.events
    requires r.history == AppendEvent(parent.history, e, investigator) && r.mode == parent.mode
    ensures ModesFollowHistory(s.written + {r})
  {
  }

  lemma SealedKeepsModes(s: State, r: Record, e: Event)
    requires Invariant(s) && e !in s.events && r.history == [e]
    ensures ModesFollowHistory(s.written + {r})
  {
    assert [] + [e] == [e];
    forall a, b | a in s.written + {r} && b in s.written + {r} && a.history <= b.history
      ensures a.mode == b.mode
    {
      if a == r && b != r {
        FreshEventIsLast(s.events, [], e, b);
      } else if b == r && a != r {
        FreshEventIsLast(s.events, [], e, a);
      }
    }
  }

  lemma WroteKeeps(s: State, id: nat, session: Session, e: Event, r: Record)
    requires Invariant(s) && WellFormed(r, s.events + {e}) && ModesFollowHistory(s.written + {r})
    requires SessionHolds(s.written + {r}, s.row, session)
    ensures Invariant(Wrote(s, id, session, e, r))
  {
  }

  lemma WithSessionKeeps(s: State, id: nat, session: Session)
    requires Invariant(s) && SessionHolds(s.written, s.row, session)
    ensures Invariant(WithSession(s, id, session))
  {
  }

  /** A save writes a record that was built, and only over a row it continues. */
  lemma SavesKeeps(s: State, id: nat)
    requires Invariant(s)
    ensures Invariant(Saves(s, id)) && RowGrows(s.row, Saves(s, id).row)
  {
    hide ModesFollowHistory, WellFormed, CheckedHolds;
    var t := Saves(s, id);
    forall k | k in t.sessions ensures SessionHolds(t.written, t.row, t.sessions[k]) {
      SessionStillHolds(s.written, s.row, t.written, t.row, s.sessions[k]);
    }
  }

  lemma StepKeepsInvariant(s: State, a: Action)
    requires Invariant(s) && Enabled(s, a)
    ensures Invariant(Next(s, a)) && RowGrows(s.row, Next(s, a).row)
  {
    hide ModesFollowHistory, CheckedHolds;
    match a
    case S4(id, e, investigator, mode, terms, claims) =>
      var record := BuildSeal(e, investigator, mode, terms);
      if record.Some? {
        SealedKeepsModes(s, record.value, e);
        WroteKeeps(s, id, Sealing(claims, record.value, None), e, record.value);
      }
    case U6(id, e, investigator) =>
      if id in s.sessions && s.sessions[id].Unsealing? {
        UnsealStepKeeps(s, id, e, investigator);
      }
    case R6(id, e, investigator, terms) =>
      if id in s.sessions && s.sessions[id].Resealing? {
        ResealStepKeeps(s, id, e, investigator, terms);
      }
    case CreateCase => CaseKeeps(s);
    case U3(id, file) =>
      if MayUnseal(s.row, file) { WithSessionKeeps(s, id, Unsealing(file, None, None)); }
    case R1(id, file) =>
      if MayReseal(s.row, file) { WithSessionKeeps(s, id, Resealing(file, None, None)); }
    case S6(id) => SplitsKeeps(s, id);
    case R7(id) => SplitsKeeps(s, id);
    case U7Check(id) =>
      if id in s.sessions { CheckKeeps(s, id); }
    case S7(id) => SavesKeeps(s, id);
    case U7Save(id) => SavesKeeps(s, id);
    case R8(id) => SavesKeeps(s, id);
  }

  lemma CaseKeeps(s: State)
    requires Invariant(s)
    ensures Invariant(Next(s, CreateCase)) && RowGrows(s.row, Next(s, CreateCase).row)
  {
  }

  lemma UnsealStepKeeps(s: State, id: nat, e: Event, investigator: string)
    requires Invariant(s) && e !in s.events && id in s.sessions && s.sessions[id].Unsealing?
    ensures Invariant(Next(s, U6(id, e, investigator)))
  {
    var loaded := s.sessions[id].loaded;
    var built := BuildUnseal(loaded, e, investigator);
    AddedKeepsModes(s, loaded, built, e, investigator);
    hide ModesFollowHistory, CheckedHolds;
    assert SessionHolds(s.written, s.row, s.sessions[id]);
    assert WellFormed(loaded, s.events);
    WroteKeeps(s, id, Unsealing(loaded, Some(built), None), e, built);
  }

  lemma ResealStepKeeps(s: State, id: nat, e: Event, investigator: string, terms: Terms)
    requires Invariant(s) && e !in s.events && id in s.sessions && s.sessions[id].Resealing?
    ensures Invariant(Next(s, R6(id, e, investigator, terms)))
  {
    var loaded := s.sessions[id].loaded;
    var built := BuildReseal(s.row, loaded, e, investigator, terms);
    if built.Some? {
      AddedKeepsModes(s, loaded, built.value, e, investigator);
      hide ModesFollowHistory, CheckedHolds;
      assert SessionHolds(s.written, s.row, s.sessions[id]);
      assert WellFormed(loaded, s.events);
      WroteKeeps(s, id, Resealing(loaded, built, s.sessions[id].splitBy), e, built.value);
    }
  }

  lemma SplitsKeeps(s: State, id: nat)
    requires Invariant(s)
    ensures Invariant(Splits(s, id)) && Splits(s, id).row == s.row
  {
  }

  lemma CheckKeeps(s: State, id: nat)
    requires Invariant(s) && id in s.sessions
    ensures Invariant(WithSession(s, id, Check(s.row, s.sessions[id])))
  {
  }

  lemma {:induction false} ReachableInvariant(states: seq<State>, actions: seq<Action>, i: nat)
    requires IsRun(states, actions) && i < |states|
    ensures Invariant(states[i])
  {
    hide Invariant, Next, Enabled;
    if i == 0 {
      EmptyHolds();
    } else {
      ReachableInvariant(states, actions, i - 1);
      StepKeepsInvariant(states[i - 1], actions[i - 1]);
    }
  }

  lemma EmptyHolds()
    ensures Invariant(INITIAL)
  {
  }

  /** The stored record after one step continues the one before in the same mode. */
  ghost predicate RowContinues(before: Row, after: Row) {
    before.Stored? ==>
      && after.Stored? && before.record.history <= after.record.history
      && after.record.mode == before.record.mode
      && (after.record.mode.Strict? ==> after.record.policy.Some?)
  }

  lemma StepContinues(s: State, a: Action)
    requires Invariant(s) && Enabled(s, a)
    ensures RowContinues(s.row, Next(s, a).row)
  {
    StepKeepsInvariant(s, a);
    var t := Next(s, a);
    assert s.written <= t.written by { hide Enabled, Invariant; }
    hide Next, Enabled, SessionHolds;
  }

  /** Under any interleaving, with any files, names and signers, the stored history
      only grows by extension, keeps its mode, and a strict record keeps a policy. */
  lemma {:induction false} StoredLineage(states: seq<State>, actions: seq<Action>, i: nat, j: nat)
    requires IsRun(states, actions) && i <= j < |states|
    ensures RowContinues(states[i].row, states[j].row)
    decreases j
  {
    hide Next, Enabled, Invariant;
    if i < j {
      StoredLineage(states, actions, i, j - 1);
      ReachableInvariant(states, actions, j - 1);
      StepContinues(states[j - 1], actions[j - 1]);
    } else {
      ReachableInvariant(states, actions, j);
      InvariantRow(states[j]);
    }
  }

  lemma InvariantRow(s: State)
    requires Invariant(s)
    ensures RowContinues(s.row, s.row)
  {
  }

  /** Whatever a sealing or resealing save stores, its key was split by that record's mode. */
  lemma SavedKeyIsSplitByItsMode(states: seq<State>, actions: seq<Action>, i: nat, id: nat)
    requires IsRun(states, actions) && i < |actions|
    requires actions[i] == S7(id) || actions[i] == R8(id)
    requires states[i + 1].row != states[i].row
    ensures id in states[i].sessions && states[i + 1].row.Stored?
    ensures var session := states[i].sessions[id];
      session.Unsealing? || session.splitBy == Some(states[i + 1].row.record.mode)
  {
    ReachableInvariant(states, actions, i);
    hide CheckedHolds, ModesFollowHistory, WellFormed;
    assert states[i + 1] == Saves(states[i], id);
    assert SessionHolds(states[i].written, states[i].row, states[i].sessions[id]);
  }
}
