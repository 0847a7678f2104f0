/**
 * Replay protection of signed sync submissions: an envelope is checked against a
 * clock, its nonce claimed later under the seal's lock, and old nonces are pruned.
 */
module SyncNonces {
  import opened Bytes

  const MIN_WINDOW: int := 30
  const MAX_WINDOW: int := 3600
  const RETENTION: int := MAX_WINDOW

  /** `sent_at` is in whole seconds. */
  datatype Envelope = Envelope(nonce: nat, sentAt: int)

  function Expiry(e: Envelope): int {
    e.sentAt + RETENTION
  }

  /** `SYNC_SIGNATURE_WINDOW_SECONDS` is checked on every submission. */
  predicate ValidWindow(window: int) {
    MIN_WINDOW <= window <= MAX_WINDOW
  }

  function Distance(a: real, b: real): real {
    if a <= b then b - a else a - b
  }

  predicate Fresh(e: Envelope, now: real, window: int) {
    Distance(now, e.sentAt as real) <= window as real
  }

  /** The window extends to both sides of the clock. */
  lemma FreshMeans(e: Envelope, now: real, window: int)
    ensures Fresh(e, now, window) <==> e.sentAt as real - window as real <= now <= e.sentAt as real + window as real
  {
  }

  /** What is left of the nonce table after pruning with a clock read at `at`. */
  function Retained(nonces: map<nat, int>, at: real): map<nat, int> {
    map n | n in nonces && !(nonces[n] < at.Floor) :: nonces[n]
  }

  /** The nonce of a claimed envelope is held until a second past its retention. */
  ghost predicate Held(nonces: map<nat, int>, now: real, e: Envelope) {
    || (e.nonce in nonces && nonces[e.nonce] == Expiry(e))
    || e.sentAt as real + RETENTION as real + 1.0 <= now
  }

  /** Pruning with a clock read no later than `now` releases no nonce earlier than that. */
  lemma PruningKeepsHeld(nonces: map<nat, int>, at: real, now: real, e: Envelope)
    requires at <= now && Held(nonces, now, e)
    ensures Held(Retained(nonces, at), now, e)
  {
    if e.nonce in nonces && nonces[e.nonce] == Expiry(e) && Expiry(e) < at.Floor {
      assert (Expiry(e) + 1) as real <= at.Floor as real <= at;
    }
  }

  /** Rows of `sync_nonces`: each nonce with its `expires_at`. */
  class NonceTable {
    var nonces: map<nat, int>
    ghost var claimed: seq<Envelope>

    constructor ()
      ensures nonces == map[] && claimed == []
    {
      nonces, claimed := map[], [];
    }

    /** Every envelope claimed so far is held, or a second past its retention. */
    ghost predicate Keeps(now: real)
      reads this
    {
      forall i | 0 <= i < |claimed| :: Held(nonces, now, claimed[i])
    }

    lemma KeepsOn(now: real, later: real)
      requires Keeps(now) && now <= later
      ensures Keeps(later)
    {
    }

    /** Refuses a nonce that the table still holds, and then writes nothing. An envelope
        is claimed again only a second past its retention. */
    method Claim(e: Envelope, ghost now: real) returns (ok: bool)
      requires Keeps(now)
      modifies this
      ensures Keeps(now) && claimed == old(claimed) + (if ok then [e] else [])
      ensures ok <==> e.nonce !in old(nonces)
      ensures nonces == if ok then old(nonces)[e.nonce := Expiry(e)] else old(nonces)
      ensures ok && e in old(claimed) ==> e.sentAt as real + RETENTION as real + 1.0 <= now
    {
      if e.nonce in nonces { return false; }
      nonces, claimed := nonces[e.nonce := e.sentAt + RETENTION], claimed + [e];
      return true;
    }

    /** Prunes with a clock read at `at`, no later than `now`: every claimed envelope stays
        held until a second past its retention, and no unexpired nonce goes. */
    method Prune(at: real, ghost now: real)
      requires Keeps(now) && at <= now
      modifies this`nonces
      ensures Keeps(now)
      ensures forall n | n in old(nonces) && at.Floor <= old(nonces)[n] :: n in nonces
      ensures nonces == Retained(old(nonces), at)
    {
      forall i | 0 <= i < |claimed| ensures Held(Retained(nonces, at), now, claimed[i]) {
        PruningKeepsHeld(nonces, at, now, claimed[i]);
      }
      nonces := map n | n in nonces && nonces[n] >= at.Floor :: nonces[n];
    }
  }

  // ---------- runs ----------

  /** A checked submission: its envelope, when it was checked and with which window. */
  datatype Submission = Submission(envelope: Envelope, checkedAt: real, window: int)

  /** `claimed` lists every envelope whose claim was committed, in order. */
  datatype State = State(clock: real, nonces: map<nat, int>, waiting: map<nat, Submission>, claimed: seq<Envelope>)

  datatype Action =
    | Tick(seconds: real)
    | Verify(id: nat, envelope: Envelope, window: int)
    | Claim(id: nat)
    | Prune(at: real)

  /** The clock never falls; pruning may use a clock value read earlier. */
  predicate Enabled(s: State, a: Action) {
    match a
    case Tick(seconds) => seconds >= 0.0
    case Verify(_, e, window) => ValidWindow(window) && Fresh(e, s.clock, window)
    case Claim(id) => id in s.waiting
    case Prune(at) => at <= s.clock
  }

  function Next(s: State, a: Action): State
    requires Enabled(s, a)
  {
    match a
    case Tick(seconds) => s.(clock := s.clock + seconds)
    case Verify(id, e, window) => s.(waiting := s.waiting[id := Submission(e, s.clock, window)])
    case Claim(id) =>
      var e := s.waiting[id].envelope;
      var rest := s.waiting - {id};
      if e.nonce in s.nonces then s.(waiting := rest)
      else s.(nonces := s.nonces[e.nonce := Expiry(e)], waiting := rest, claimed := s.claimed + [e])
    case Prune(at) => s.(nonces := Retained(s.nonces, at))
  }

  /** Every claim comes at most `delay` after its check, which used a window of at most `window`. */
  predicate Prompt(s: State, a: Action, window: int, delay: real) {
    a.Claim? && a.id in s.waiting ==>
      s.waiting[a.id].window <= window && s.clock - s.waiting[a.id].checkedAt <= delay
  }

  ghost predicate IsRun(states: seq<State>, actions: seq<Action>, window: int, delay: real) {
    && |states| == |actions| + 1
    && states[0] == State(0.0, map[], map[], [])
    && forall i | 0 <= i < |actions| ::
         Enabled(states[i], actions[i]) && Prompt(states[i], actions[i], window, delay)
         && states[i + 1] == Next(states[i], actions[i])
  }

  ghost predicate NoReplay(claimed: seq<Envelope>) {
    forall i, j | 0 <= i < j < |claimed| :: claimed[i] != claimed[j]
  }

  /** No envelope is claimed twice in any run with these windows and delays. */
  ghost predicate ReplayFree(window: int, delay: real) {
    forall states: seq<State>, actions: seq<Action> | IsRun(states, actions, window, delay) ::
      NoReplay(states[|actions|].claimed)
  }

  ghost predicate Invariant(s: State) {
    && NoReplay(s.claimed)
    && (forall i | 0 <= i < |s.claimed| :: Held(s.nonces, s.clock, s.claimed[i]))
    && forall id | id in s.waiting ::
         var w := s.waiting[id];
         ValidWindow(w.window) && Fresh(w.envelope, w.checkedAt, w.window) && w.checkedAt <= s.clock
  }

  lemma StepKeeps(s: State, a: Action, window: int, delay: real)
    requires Invariant(s) && Enabled(s, a) && Prompt(s, a, window, delay)
    requires window as real + delay < (RETENTION + 1) as real
    ensures Invariant(Next(s, a))
  {
    var t := Next(s, a);
    forall i | 0 <= i < |s.claimed| ensures Held(t.nonces, t.clock, s.claimed[i]) {
      if a.Prune? { PruningKeepsHeld(s.nonces, a.at, s.clock, s.claimed[i]); }
    }
    if a.Claim? && t.claimed != s.claimed {
      assert forall i | 0 <= i < |s.claimed| :: Held(s.nonces, s.clock, s.claimed[i]);
    }
  }

  lemma {:induction false} RunKeeps(states: seq<State>, actions: seq<Action>, window: int, delay: real, i: nat)
    requires IsRun(states, actions, window, delay) && i < |states|
    requires window as real + delay < (RETENTION + 1) as real
    ensures Invariant(states[i])
  {
    if i > 0 {
      RunKeeps(states, actions, window, delay, i - 1);
      StepKeeps(states[i - 1], actions[i - 1], window, delay);
    }
  }

  /** An envelope sent at 0, claimed, checked again at the end of the window and
      claimed again once its nonce has been pruned. */
  lemma ReplayRun(window: int, delay: real) returns (states: seq<State>, actions: seq<Action>)
    requires ValidWindow(window) && window as real + delay >= (RETENTION + 1) as real
    ensures IsRun(states, actions, window, delay)
    ensures states[|actions|].claimed == [Envelope(7, 0), Envelope(7, 0)]
  {
    var e := Envelope(7, 0);
    var s0 := State(0.0, map[], map[], []);
    var check := Submission(e, 0.0, window);
    var s1 := State(0.0, map[], map[1 := check], []);
    var s2 := State(0.0, map[7 := 3600], map[], [e]);
    var s3 := State(window as real, map[7 := 3600], map[], [e]);
    var again := Submission(e, window as real, window);
    var s4 := State(window as real, map[7 := 3600], map[1 := again], [e]);
    var s5 := State(3601.0, map[7 := 3600], map[1 := again], [e]);
    var s6 := State(3601.0, map[], map[1 := again], [e]);
    var s7 := State(3601.0, map[7 := 3600], map[], [e, e]);
    states := [s0, s1, s2, s3, s4, s5, s6, s7];
    actions := [Verify(1, e, window), Claim(1), Tick(window as real), Verify(1, e, window),
                Tick(3601.0 - window as real), Prune(3601.0), Claim(1)];
    assert Next(s0, actions[0]) == s1;
    assert Next(s1, actions[1]) == s2;
    assert Next(s2, actions[2]) == s3;
    assert Next(s3, actions[3]) == s4;
    assert Next(s4, actions[4]) == s5;
    assert 3601.0.Floor == 3601 && Next(s5, actions[5]) == s6;
    assert Next(s6, actions[6]) == s7;
  }

  /** Exactly when replay is impossible: the window and the delay between check and
      claim stay, together, below the retention plus one second. */
  lemma ReplayFreeExactly(window: int, delay: real)
    requires ValidWindow(window)
    ensures ReplayFree(window, delay) <==> window as real + delay < (RETENTION + 1) as real
  {
    if window as real + delay < (RETENTION + 1) as real {
      forall states: seq<State>, actions: seq<Action> | IsRun(states, actions, window, delay)
        ensures NoReplay(states[|actions|].claimed)
      {
        RunKeeps(states, actions, window, delay, |actions|);
      }
    } else {
      var states, actions := ReplayRun(window, delay);
      var claimed := states[|actions|].claimed;
      assert claimed[0] == claimed[1] && !NoReplay(claimed);
    }
  }
}
