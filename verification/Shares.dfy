/**
 * The stored shares a release tries, in which order, and the search for the
 * first recombination that matches the key commitment.
 */
module Shares {
  import opened Bytes
  import opened Text

  datatype StoredShare = StoredShare(index: nat, generation: nat, data: string)

  /** The stored shares an attempt uses, and the strings it recombines. */
  datatype Attempt = Attempt(used: seq<StoredShare>, shares: seq<string>)

  /** A key and the shares it came from, or whether any attempt recombined. */
  datatype Match = Found(key: string, used: seq<StoredShare>) | NoMatch(recombined: bool)

  datatype Pool = Usable(shares: seq<StoredShare>) | Missing | Malformed

  const OWNER_SLOT: nat := 1
  const ADMIN_SLOT: nat := 4

  type Recover = seq<string> -> Option<string>
  type Matches = string -> bool

  // ---------- preference order ----------

  /** `generation` first, then the others highest first; lower slot first. */
  predicate Precedes(generation: nat, a: StoredShare, b: StoredShare) {
    if (a.generation == generation) != (b.generation == generation) then a.generation == generation
    else if a.generation != b.generation then a.generation > b.generation
    else a.index <= b.index
  }

  /** The order: one row of the generation alone, both of one generation and the slots in
      order, or neither of it and the higher first. */
  lemma PrecedesMeans(generation: nat, a: StoredShare, b: StoredShare)
    ensures Precedes(generation, a, b) <==>
      || (a.generation == generation && b.generation != generation)
      || (a.generation == b.generation && a.index <= b.index)
      || (a.generation != generation && b.generation != generation && a.generation > b.generation)
  {
  }

  /** Each row precedes the next. */
  predicate InOrder(generation: nat, rows: seq<StoredShare>) {
    |rows| >= 2 ==> Precedes(generation, rows[0], rows[1]) && InOrder(generation, rows[1..])
  }

  lemma {:induction false} InOrderPairwise(generation: nat, rows: seq<StoredShare>, i: nat, j: nat)
    requires InOrder(generation, rows) && i < j < |rows|
    ensures Precedes(generation, rows[i], rows[j])
  {
    if i > 0 {
      InOrderPairwise(generation, rows[1..], i - 1, j - 1);
    } else if j > 1 {
      InOrderPairwise(generation, rows[1..], 0, j - 1);
    }
  }

  function Insert(generation: nat, row: StoredShare, rows: seq<StoredShare>): (r: seq<StoredShare>)
    requires InOrder(generation, rows)
    ensures InOrder(generation, r)
    ensures |r| == |rows| + 1 && (r[0] == row || (rows != [] && r[0] == rows[0]))
  {
    if rows == [] || Precedes(generation, row, rows[0]) then [row] + rows
    else
      var r := Insert(generation, row, rows[1..]);
      assert ([rows[0]] + r)[1..] == r;
      [rows[0]] + r
  }

  /** `by_preference`: the rows sorted by (generation != G, -generation, slot). */
  function ByPreference(generation: nat, rows: seq<StoredShare>): (r: seq<StoredShare>)
    ensures InOrder(generation, r)
  {
    if rows == [] then [] else Insert(generation, rows[0], ByPreference(generation, rows[1..]))
  }

  lemma {:induction false} InsertKeepsRows(generation: nat, row: StoredShare, rows: seq<StoredShare>)
    requires InOrder(generation, rows)
    ensures multiset(Insert(generation, row, rows)) == multiset(rows) + multiset{row}
  {
    if rows != [] {
      assert rows == [rows[0]] + rows[1..];
      if !Precedes(generation, row, rows[0]) {
        InsertKeepsRows(generation, row, rows[1..]);
      }
    }
  }

  /** Sorting keeps every row, with its number of occurrences. */
  lemma {:induction false} ByPreferenceKeepsRows(generation: nat, rows: seq<StoredShare>)
    ensures multiset(ByPreference(generation, rows)) == multiset(rows)
  {
    if rows != [] {
      assert rows == [rows[0]] + rows[1..];
      ByPreferenceKeepsRows(generation, rows[1..]);
      InsertKeepsRows(generation, rows[0], ByPreference(generation, rows[1..]));
    }
  }

  /** In sorted order every row of the generation comes before all others, then higher
      generations before lower ones, and within one generation lower slots first. */
  lemma SortedPairwise(generation: nat, rows: seq<StoredShare>, i: nat, j: nat)
    requires i < j < |rows|
    ensures |ByPreference(generation, rows)| == |rows|
    ensures var a, b := ByPreference(generation, rows)[i], ByPreference(generation, rows)[j];
      && (b.generation == generation ==> a.generation == generation)
      && (a.generation != generation ==> a.generation >= b.generation)
      && (a.generation == b.generation ==> a.index <= b.index)
  {
    ByPreferenceKeepsRows(generation, rows);
    assert |multiset(ByPreference(generation, rows))| == |multiset(rows)|;
    InOrderPairwise(generation, ByPreference(generation, rows), i, j);
  }

  lemma SortedRows(generation: nat, rows: seq<StoredShare>)
    ensures forall row :: row in ByPreference(generation, rows) <==> row in rows
  {
    ByPreferenceKeepsRows(generation, rows);
    forall row
      ensures row in ByPreference(generation, rows) <==> row in rows
    {
      assert row in rows <==> row in multiset(rows);
      assert row in ByPreference(generation, rows) <==> row in multiset(ByPreference(generation, rows));
    }
  }

  // ---------- usable shares ----------

  /** A stored value is a candidate when it carries its own slot's index prefix. */
  predicate IsUsable(row: StoredShare) {
    row.data != "" && Decimal(row.index) + "-" <= row.data
  }

  function Filter(rows: seq<StoredShare>, keep: StoredShare -> bool): (r: seq<StoredShare>)
    ensures forall row :: row in r <==> row in rows && keep(row)
  {
    if rows == [] then []
    else Filter(rows[..|rows| - 1], keep) + if keep(rows[|rows| - 1]) then [rows[|rows| - 1]] else []
  }

  function UsableOrProblem(stored: seq<StoredShare>): Pool {
    var found := Filter(stored, row => IsUsable(row));
    if stored == [] then Missing else if found == [] then Malformed else Usable(found)
  }

  function OwnerShares(rows: seq<StoredShare>): Pool {
    UsableOrProblem(Filter(rows, (row: StoredShare) => row.index == OWNER_SLOT && row.data != ""))
  }

  function AdminShares(rows: seq<StoredShare>): Pool {
    UsableOrProblem(Filter(rows, (row: StoredShare) => row.index == ADMIN_SLOT && row.data != ""))
  }

  function OtherShares(rows: seq<StoredShare>): Pool {
    UsableOrProblem(Filter(rows, (row: StoredShare) => row.index != ADMIN_SLOT && row.data != ""))
  }

  /** One attempt per owner share, in order, each with the presented shares. */
  function OwnerAttempts(owner: seq<StoredShare>, generation: nat, presented: seq<string>): seq<Attempt> {
    var rows := ByPreference(generation, owner);
    seq(|rows|, i requires 0 <= i < |rows| => Attempt([rows[i]], [rows[i].data] + presented))
  }

  function PairAttempt(other: StoredShare, admin: StoredShare): Attempt {
    Attempt([other, admin], [other.data, admin.data])
  }

  function PairsWith(admin: StoredShare, others: seq<StoredShare>): seq<Attempt> {
    seq(|others|, j requires 0 <= j < |others| => PairAttempt(others[j], admin))
  }

  /** Every s4 in the given order, each with the others in their order. */
  function Pairs(admins: seq<StoredShare>, others: seq<StoredShare>): seq<Attempt> {
    if admins == [] then [] else PairsWith(admins[0], others) + Pairs(admins[1..], others)
  }

  function AdminAttempts(admins: seq<StoredShare>, others: seq<StoredShare>, generation: nat): seq<Attempt> {
    Pairs(ByPreference(generation, admins), ByPreference(generation, others))
  }

  // ---------- the search ----------

  predicate Recombines(a: Attempt, recover: Recover) {
    recover(a.shares).Some?
  }

  predicate Hits(a: Attempt, recover: Recover, matches: Matches) {
    recover(a.shares).Some? && matches(recover(a.shares).value)
  }

  /** `first_match` as a value. */
  function FirstMatch(attempts: seq<Attempt>, recover: Recover, matches: Matches): Match {
    if attempts == [] then NoMatch(false)
    else if Hits(attempts[0], recover, matches) then Found(recover(attempts[0].shares).value, attempts[0].used)
    else
      var rest := FirstMatch(attempts[1..], recover, matches);
      if rest.NoMatch? then NoMatch(rest.recombined || Recombines(attempts[0], recover)) else rest
  }

  /** `first_match`: the loop over the attempts. */
  method FindFirstMatch(attempts: seq<Attempt>, recover: Recover, matches: Matches) returns (m: Match)
    ensures m == FirstMatch(attempts, recover, matches)
  {
    var recombined := false;
    for k := 0 to |attempts|
      invariant var rest := FirstMatch(attempts[k..], recover, matches);
                FirstMatch(attempts, recover, matches)
                == if rest.NoMatch? then NoMatch(rest.recombined || recombined) else rest
    {
      assert attempts[k..][1..] == attempts[k + 1..];
      var key := recover(attempts[k].shares);
      if key.Some? {
        recombined := true;
        if matches(key.value) {
          return Found(key.value, attempts[k].used);
        }
      }
    }
    return NoMatch(recombined);
  }

  /** Attempt `i` is the first hit. */
  ghost predicate FirstHitAt(attempts: seq<Attempt>, i: int, recover: Recover, matches: Matches) {
    && 0 <= i < |attempts| && Hits(attempts[i], recover, matches)
    && forall j | 0 <= j < i :: !Hits(attempts[j], recover, matches)
  }

  function Result(a: Attempt, recover: Recover): Match
    requires Recombines(a, recover)
  {
    Found(recover(a.shares).value, a.used)
  }

  /** The result is the first hit; without one, whether anything recombined. */
  lemma {:induction false} FirstMatchIsFirst(attempts: seq<Attempt>, recover: Recover, matches: Matches)
    ensures match FirstMatch(attempts, recover, matches)
      case Found(key, used) =>
        exists i :: FirstHitAt(attempts, i, recover, matches) && Found(key, used) == Result(attempts[i], recover)
      case NoMatch(recombined) =>
        && (forall j | 0 <= j < |attempts| :: !Hits(attempts[j], recover, matches))
        && (recombined <==> exists j :: 0 <= j < |attempts| && Recombines(attempts[j], recover))
  {
    if attempts == [] {
    } else if Hits(attempts[0], recover, matches) {
      assert FirstHitAt(attempts, 0, recover, matches);
    } else {
      var rest := attempts[1..];
      FirstMatchIsFirst(rest, recover, matches);
      var m := FirstMatch(rest, recover, matches);
      if m.Found? {
        var i :| FirstHitAt(rest, i, recover, matches) && m == Result(rest[i], recover);
        assert attempts[i + 1] == rest[i];
        assert forall j | 0 < j < i + 1 :: attempts[j] == rest[j - 1];
        assert FirstHitAt(attempts, i + 1, recover, matches);
      } else {
        assert forall j | 0 < j < |attempts| :: attempts[j] == rest[j - 1];
        assert forall j | 0 <= j < |rest| :: rest[j] == attempts[j + 1];
      }
    }
  }

  // ---------- owner shares: the search is exact ----------

  function OwnerAttempt(row: StoredShare, presented: seq<string>): Attempt {
    Attempt([row], [row.data] + presented)
  }

  /** `row` is a hit and no owner share that hits is preferred to it. */
  ghost predicate IsBestOwner(owner: seq<StoredShare>, generation: nat, presented: seq<string>,
                              recover: Recover, matches: Matches, row: StoredShare)
  {
    && row in owner && Hits(OwnerAttempt(row, presented), recover, matches)
    && forall other | other in owner && Hits(OwnerAttempt(other, presented), recover, matches)
         :: Precedes(generation, row, other)
  }

  /** A key is found iff some owner share recombines to a match; it is the one of
      the most preferred such share; and `recombined` says whether any share recombined. */
  lemma OwnerSearchIsExact(owner: seq<StoredShare>, generation: nat, presented: seq<string>,
                           recover: Recover, matches: Matches)
    ensures match FirstMatch(OwnerAttempts(owner, generation, presented), recover, matches)
      case Found(key, used) =>
        && |used| == 1 && IsBestOwner(owner, generation, presented, recover, matches, used[0])
        && recover([used[0].data] + presented) == Some(key)
      case NoMatch(recombined) =>
        && (forall row | row in owner :: !Hits(OwnerAttempt(row, presented), recover, matches))
        && (recombined <==> exists row :: row in owner && Recombines(OwnerAttempt(row, presented), recover))
  {
    var rows, attempts := ByPreference(generation, owner), OwnerAttempts(owner, generation, presented);
    SortedRows(generation, owner);
    FirstMatchIsFirst(attempts, recover, matches);
    assert forall i | 0 <= i < |rows| :: attempts[i] == OwnerAttempt(rows[i], presented);
    var m := FirstMatch(attempts, recover, matches);
    if m.Found? {
      var i :| FirstHitAt(attempts, i, recover, matches) && m == Result(attempts[i], recover);
      assert rows[i] in owner;
      forall row | row in owner && Hits(OwnerAttempt(row, presented), recover, matches)
        ensures Precedes(generation, rows[i], row)
      {
        var j :| 0 <= j < |rows| && rows[j] == row;
        assert attempts[j] == OwnerAttempt(row, presented);
        if i < j { InOrderPairwise(generation, rows, i, j); }
      }
    } else {
      forall row | row in owner
        ensures !Hits(OwnerAttempt(row, presented), recover, matches)
        ensures Recombines(OwnerAttempt(row, presented), recover) ==> m.recombined
      {
        var j :| 0 <= j < |rows| && rows[j] == row;
        assert attempts[j] == OwnerAttempt(row, presented);
      }
      forall j | 0 <= j < |attempts| ensures attempts[j] == OwnerAttempt(rows[j], presented) && rows[j] in owner {
      }
    }
  }

  // ---------- admin pairs: the search is exact ----------

  /** The first hit in reading order over admins, then others. */
  ghost predicate IsFirstPair(admins: seq<StoredShare>, others: seq<StoredShare>, i: int, j: int,
                              recover: Recover, matches: Matches)
  {
    && 0 <= i < |admins| && FirstHitAt(PairsWith(admins[i], others), j, recover, matches)
    && (forall x | 0 <= x < i :: NoneHits(admins[x], others, recover, matches))
  }

  ghost predicate NoneHits(admin: StoredShare, others: seq<StoredShare>, recover: Recover, matches: Matches) {
    forall other | other in others :: !Hits(PairAttempt(other, admin), recover, matches)
  }

  ghost predicate SomeRecombines(admin: StoredShare, others: seq<StoredShare>, recover: Recover) {
    exists other :: other in others && Recombines(PairAttempt(other, admin), recover)
  }

  lemma {:induction false} FirstMatchOfTwo(a: seq<Attempt>, b: seq<Attempt>, recover: Recover, matches: Matches)
    ensures var m, n := FirstMatch(a, recover, matches), FirstMatch(b, recover, matches);
      FirstMatch(a + b, recover, matches)
      == if m.Found? then m else if n.Found? then n else NoMatch(m.recombined || n.recombined)
  {
    if a == [] {
      assert a + b == b;
    } else {
      assert (a + b)[1..] == a[1..] + b;
      FirstMatchOfTwo(a[1..], b, recover, matches);
    }
  }

  /** The search over one s4. */
  lemma OneAdminSearch(admin: StoredShare, others: seq<StoredShare>, recover: Recover, matches: Matches)
    ensures match FirstMatch(PairsWith(admin, others), recover, matches)
      case Found(key, used) =>
        exists j :: FirstHitAt(PairsWith(admin, others), j, recover, matches)
                 && Found(key, used) == Result(PairAttempt(others[j], admin), recover)
      case NoMatch(recombined) =>
        && NoneHits(admin, others, recover, matches)
        && (recombined <==> SomeRecombines(admin, others, recover))
  {
    var attempts := PairsWith(admin, others);
    FirstMatchIsFirst(attempts, recover, matches);
    var m := FirstMatch(attempts, recover, matches);
    if m.Found? {
      var j :| FirstHitAt(attempts, j, recover, matches) && m == Result(attempts[j], recover);
      assert attempts[j] == PairAttempt(others[j], admin);
    } else {
      forall other | other in others
        ensures !Hits(PairAttempt(other, admin), recover, matches)
        ensures Recombines(PairAttempt(other, admin), recover) ==> m.recombined
      {
        var j :| 0 <= j < |others| && others[j] == other;
        assert attempts[j] == PairAttempt(other, admin);
      }
      if m.recombined {
        var j :| 0 <= j < |attempts| && Recombines(attempts[j], recover);
        assert others[j] in others && attempts[j] == PairAttempt(others[j], admin);
      }
    }
  }

  lemma {:induction false} PairSearch(admins: seq<StoredShare>, others: seq<StoredShare>, recover: Recover, matches: Matches)
    ensures match FirstMatch(Pairs(admins, others), recover, matches)
      case Found(key, used) =>
        exists i, j :: IsFirstPair(admins, others, i, j, recover, matches)
                    && Found(key, used) == Result(PairAttempt(others[j], admins[i]), recover)
      case NoMatch(recombined) =>
        && (forall admin | admin in admins :: NoneHits(admin, others, recover, matches))
        && (recombined <==> exists admin :: admin in admins && SomeRecombines(admin, others, recover))
  {
    if admins != [] {
      var here, rest := PairsWith(admins[0], others), admins[1..];
      FirstMatchOfTwo(here, Pairs(rest, others), recover, matches);
      OneAdminSearch(admins[0], others, recover, matches);
      PairSearch(rest, others, recover, matches);
      var m := FirstMatch(Pairs(admins, others), recover, matches);
      assert forall admin :: admin in admins <==> admin == admins[0] || admin in rest;
      if FirstMatch(here, recover, matches).Found? {
        var j :| FirstHitAt(here, j, recover, matches) && m == Result(PairAttempt(others[j], admins[0]), recover);
        assert IsFirstPair(admins, others, 0, j, recover, matches);
      } else if m.Found? {
        var i, j :| IsFirstPair(rest, others, i, j, recover, matches)
                 && m == Result(PairAttempt(others[j], rest[i]), recover);
        assert admins[i + 1] == rest[i];
        assert forall x | 0 < x < i + 1 :: admins[x] == rest[x - 1];
        assert IsFirstPair(admins, others, i + 1, j, recover, matches);
      }
    }
  }

  /** The pair is a hit; no s4 with a hitting partner is preferred to its s4, and
      no other hitting partner of that s4 to its other share. */
  ghost predicate IsBestPair(admins: seq<StoredShare>, others: seq<StoredShare>, generation: nat,
                             recover: Recover, matches: Matches, other: StoredShare, s4: StoredShare)
  {
    && other in others && s4 in admins && Hits(PairAttempt(other, s4), recover, matches)
    && (forall a, o | a in admins && o in others && Hits(PairAttempt(o, a), recover, matches)
          :: Precedes(generation, s4, a))
    && (forall o | o in others && Hits(PairAttempt(o, s4), recover, matches) :: Precedes(generation, other, o))
  }

  lemma FirstPairIsBest(admins: seq<StoredShare>, others: seq<StoredShare>, generation: nat,
                        recover: Recover, matches: Matches, i: int, j: int)
    requires IsFirstPair(ByPreference(generation, admins), ByPreference(generation, others), i, j, recover, matches)
    ensures IsBestPair(admins, others, generation, recover, matches,
                       ByPreference(generation, others)[j], ByPreference(generation, admins)[i])
  {
    hide ByPreference, InOrder;
    var a, o := ByPreference(generation, admins), ByPreference(generation, others);
    SortedRows(generation, admins);
    SortedRows(generation, others);
    assert PairsWith(a[i], o)[j] == PairAttempt(o[j], a[i]);
    forall s4, other | s4 in admins && other in others && Hits(PairAttempt(other, s4), recover, matches)
      ensures Precedes(generation, a[i], s4)
    {
      var x :| 0 <= x < |a| && a[x] == s4;
      assert !NoneHits(a[x], o, recover, matches);
      if i < x { InOrderPairwise(generation, a, i, x); }
    }
    forall other | other in others && Hits(PairAttempt(other, a[i]), recover, matches)
      ensures Precedes(generation, o[j], other)
    {
      var y :| 0 <= y < |o| && o[y] == other;
      assert PairsWith(a[i], o)[y] == PairAttempt(o[y], a[i]);
      if j < y { InOrderPairwise(generation, o, j, y); }
    }
  }

  /** A key is found iff some s4 with some other share recombines to a match; it is
      the most preferred such s4's, with its most preferred partner. */
  lemma AdminSearchIsExact(admins: seq<StoredShare>, others: seq<StoredShare>, generation: nat,
                           recover: Recover, matches: Matches)
    ensures match FirstMatch(AdminAttempts(admins, others, generation), recover, matches)
      case Found(key, used) =>
        && |used| == 2 && IsBestPair(admins, others, generation, recover, matches, used[0], used[1])
        && recover([used[0].data, used[1].data]) == Some(key)
      case NoMatch(recombined) =>
        && (forall s4 | s4 in admins :: NoneHits(s4, others, recover, matches))
        && (recombined <==> exists s4 :: s4 in admins && SomeRecombines(s4, others, recover))
  {
    var a, o := ByPreference(generation, admins), ByPreference(generation, others);
    PairSearch(a, o, recover, matches);
    var m := FirstMatch(AdminAttempts(admins, others, generation), recover, matches);
    if m.Found? {
      var i, j :| IsFirstPair(a, o, i, j, recover, matches) && m == Result(PairAttempt(o[j], a[i]), recover);
      FirstPairIsBest(admins, others, generation, recover, matches, i, j);
    } else {
      SortedRows(generation, admins);
      SortedRows(generation, others);
      forall s4 | s4 in admins
        ensures NoneHits(s4, others, recover, matches) && SomeRecombines(s4, others, recover) == SomeRecombines(s4, o, recover)
      {
        assert NoneHits(s4, o, recover, matches);
      }
    }
  }

  // ---------- extra rows ----------

  /** At most one share per slot and generation: the table's unique key. */
  ghost predicate UniqueKeys(rows: seq<StoredShare>) {
    forall a, b | a in rows && b in rows && a.index == b.index && a.generation == b.generation :: a == b
  }

  /** Rows that match nothing neither block an owner search nor change its result. */
  lemma WrongRowsChangeNothing(owner: seq<StoredShare>, more: seq<StoredShare>, generation: nat,
                               presented: seq<string>, recover: Recover, matches: Matches)
    requires UniqueKeys(more) && (forall row | row in owner :: row in more)
    requires forall row | row in more && row !in owner :: !Hits(OwnerAttempt(row, presented), recover, matches)
    ensures var m := FirstMatch(OwnerAttempts(owner, generation, presented), recover, matches);
            var n := FirstMatch(OwnerAttempts(more, generation, presented), recover, matches);
            m.Found? == n.Found? && (m.Found? ==> n == m)
  {
    OwnerSearchIsExact(owner, generation, presented, recover, matches);
    OwnerSearchIsExact(more, generation, presented, recover, matches);
    var m := FirstMatch(OwnerAttempts(owner, generation, presented), recover, matches);
    var n := FirstMatch(OwnerAttempts(more, generation, presented), recover, matches);
    if m.Found? {
      assert m.used == [m.used[0]] && n.used == [n.used[0]];
      assert m.used[0] in more && n.used[0] in owner;
      assert Precedes(generation, m.used[0], n.used[0]) && Precedes(generation, n.used[0], m.used[0]);
    }
  }

  /** The same for the admin path: extra s4 or other shares that hit with nothing. */
  lemma WrongRowsChangeNoPair(admins: seq<StoredShare>, others: seq<StoredShare>,
                              moreAdmins: seq<StoredShare>, moreOthers: seq<StoredShare>,
                              generation: nat, recover: Recover, matches: Matches)
    requires UniqueKeys(moreAdmins) && UniqueKeys(moreOthers)
    requires (forall row | row in admins :: row in moreAdmins) && (forall row | row in others :: row in moreOthers)
    requires forall s4, other | s4 in moreAdmins && other in moreOthers && (s4 !in admins || other !in others)
               :: !Hits(PairAttempt(other, s4), recover, matches)
    ensures var m := FirstMatch(AdminAttempts(admins, others, generation), recover, matches);
            var n := FirstMatch(AdminAttempts(moreAdmins, moreOthers, generation), recover, matches);
            m.Found? == n.Found? && (m.Found? ==> n == m)
  {
    AdminSearchIsExact(admins, others, generation, recover, matches);
    AdminSearchIsExact(moreAdmins, moreOthers, generation, recover, matches);
    var m := FirstMatch(AdminAttempts(admins, others, generation), recover, matches);
    var n := FirstMatch(AdminAttempts(moreAdmins, moreOthers, generation), recover, matches);
    if m.Found? {
      assert m.used == [m.used[0], m.used[1]] && n.used == [n.used[0], n.used[1]];
      assert m.used[1] in moreAdmins && m.used[0] in moreOthers;
      assert Precedes(generation, m.used[1], n.used[1]) && Precedes(generation, n.used[1], m.used[1]);
      assert Precedes(generation, m.used[0], n.used[0]) && Precedes(generation, n.used[0], m.used[0]);
    }
  }
}
