/**
 * The stored key shares of all seals under any interleaving of uploads, removals and
 * repeated removal forms. Each operation is one transaction under the seal's lock.
 */
module ShareTable {
  import opened Bytes
  import opened Text

  const MAX_GENERATION: nat := 0x7FFF_FFFF
  const MAX_SHARE_LENGTH: nat := 4096
  const MAX_SEAL_ID_LENGTH: nat := 64
  const MAX_REASON_LENGTH: nat := 2000

  datatype Key = Key(seal: string, slot: nat, generation: nat)

  datatype Row = Row(id: nat, key: Key, data: string)

  /** A removal's audit row holds the digest of the removed share, not its value. */
  datatype Audit = Audit(key: Key, sha256: nat, operator: string, reason: string)

  datatype Table = Table(rows: set<Row>, nextId: nat, audit: seq<Audit>)

  // ---------- texts ----------

  /** What Python's `str.strip` removes. */
  predicate IsSpace(c: char) {
    var k := c as int;
    || 0x09 <= k <= 0x0D || 0x1C <= k <= 0x20 || k == 0x85 || k == 0xA0 || k == 0x1680
    || 0x2000 <= k <= 0x200A || k == 0x2028 || k == 0x2029 || k == 0x202F || k == 0x205F || k == 0x3000
  }

  function StripFront(s: string): (r: string)
    ensures |r| <= |s| && (r != "" ==> !IsSpace(r[0]))
    ensures s != "" && !IsSpace(s[0]) ==> r == s
  {
    if s != "" && IsSpace(s[0]) then StripFront(s[1..]) else s
  }

  function StripBack(s: string): (r: string)
    ensures r <= s && (r != "" ==> !IsSpace(r[|r| - 1]))
    ensures s != "" && !IsSpace(s[|s| - 1]) ==> r == s
  {
    if s != "" && IsSpace(s[|s| - 1]) then StripBack(s[..|s| - 1]) else s
  }

  function Strip(s: string): string {
    StripBack(StripFront(s))
  }

  function LowerChar(c: char): char {
    if 'A' <= c <= 'Z' then (c as int + 32) as char else c
  }

  function Lower(s: string): (r: string)
    ensures |r| == |s| && forall i | 0 <= i < |s| :: r[i] == LowerChar(s[i])
  {
    seq(|s|, i requires 0 <= i < |s| => LowerChar(s[i]))
  }

  /** A share as it is stored and compared. */
  function Normal(s: string): string {
    Lower(Strip(s))
  }

  lemma NormalTwice(s: string)
    ensures Normal(Normal(s)) == Normal(s)
  {
    var n := Normal(s);
    if n != "" {
      assert !IsSpace(n[0]) && !IsSpace(n[|n| - 1]);
      assert Strip(n) == n;
    }
    assert Lower(n) == n;
  }

  predicate IsHexDigit(c: char) {
    '0' <= c <= '9' || 'a' <= c <= 'f'
  }

  predicate AllHex(s: string) {
    forall i | 0 <= i < |s| :: IsHexDigit(s[i])
  }

  datatype Checked = Accepted(share: string) | TooLong | OtherSlot | NotHex

  /** `checked_share` of the upload route for `slot` (1 or 2). */
  function CheckedShare(raw: string, slot: nat): Checked
    requires slot <= 9
  {
    var share := Normal(raw);
    var dash := DashAt(share);
    if |share| > MAX_SHARE_LENGTH then TooLong
    else if dash == |share| || share[..dash] != [Digit(slot)] then OtherSlot
    else if dash + 1 == |share| || !AllHex(share[dash + 1..]) then NotHex
    else Accepted(share)
  }

  ghost predicate IsShare(share: string, slot: nat)
    requires slot <= 9
  {
    && 3 <= |share| <= MAX_SHARE_LENGTH
    && share[0] == Digit(slot) && share[1] == '-' && AllHex(share[2..])
  }

  /** A text is accepted exactly when its stored form is a share of the route's own
      slot; checking that form again gives it back, and no other slot accepts it. */
  lemma CheckedShareExactly(raw: string, slot: nat, other: nat)
    requires slot <= 9 && other <= 9 && other != slot
    ensures CheckedShare(raw, slot).Accepted? <==> IsShare(Normal(raw), slot)
    ensures CheckedShare(raw, slot).Accepted? ==>
      && CheckedShare(raw, slot).share == Normal(raw)
      && CheckedShare(Normal(raw), slot) == CheckedShare(raw, slot)
      && !CheckedShare(raw, other).Accepted?
  {
    var share := Normal(raw);
    NormalTwice(raw);
    hide Normal;
    if IsShare(share, slot) {
      assert DashAt(share) == 1;
      assert share[..1] == [Digit(slot)];
    }
  }

  /** Why a text is refused: too long, not of the route's slot, or not hexadecimal behind the dash. */
  lemma RefusedExactly(raw: string, slot: nat)
    requires slot <= 9
    ensures var share, checked := Normal(raw), CheckedShare(raw, slot);
      && (checked.TooLong? <==> |share| > MAX_SHARE_LENGTH)
      && (checked.OtherSlot? <==> |share| <= MAX_SHARE_LENGTH && !([Digit(slot), '-'] <= share))
      && (checked.NotHex? <==>
            |share| <= MAX_SHARE_LENGTH && [Digit(slot), '-'] <= share && (|share| == 2 || !AllHex(share[2..])))
  {
    var share := Normal(raw);
    hide Normal;
    if [Digit(slot), '-'] <= share {
      assert DashAt(share) == 1 && share[..1] == [Digit(slot)];
    }
  }

  lemma HexDigitMeans(c: char)
    ensures IsHexDigit(c) <==> c in "0123456789abcdef"
  {
    var digits := "0123456789abcdef";
    if '0' <= c <= '9' {
      assert digits[c as int - '0' as int] == c;
    } else if 'a' <= c <= 'f' {
      assert digits[c as int - 'a' as int + 10] == c;
    }
  }

  /** `t` is the lower-case share `s`, some letters in upper case. */
  ghost predicate AnyCase(s: string, t: string) {
    |t| == |s| && forall i | 0 <= i < |s| :: t[i] == s[i] || ('a' <= s[i] <= 'f' && t[i] as int == s[i] as int - 32)
  }

  lemma {:induction false} StripsFront(blanks: string, s: string)
    requires (forall i | 0 <= i < |blanks| :: blanks[i] in " \t\r\n") && s != "" && !IsSpace(s[0])
    ensures StripFront(blanks + s) == s
  {
    if blanks == "" {
      assert blanks + s == s;
    } else {
      assert (blanks + s)[1..] == blanks[1..] + s;
      StripsFront(blanks[1..], s);
    }
  }

  lemma {:induction false} StripsBack(s: string, blanks: string)
    requires (forall i | 0 <= i < |blanks| :: blanks[i] in " \t\r\n") && s != "" && !IsSpace(s[|s| - 1])
    ensures StripBack(s + blanks) == s
  {
    if blanks == "" {
      assert s + blanks == s;
    } else {
      assert (s + blanks)[..|s + blanks| - 1] == s + blanks[..|blanks| - 1];
      StripsBack(s, blanks[..|blanks| - 1]);
    }
  }

  /** A share is accepted in either case and with blanks around it, as the same share. */
  lemma AcceptedAnyhow(share: string, slot: nat, typed: string, front: string, back: string)
    requires slot <= 9 && IsShare(share, slot) && AnyCase(share, typed)
    requires forall i | 0 <= i < |front| :: front[i] in " \t\r\n"
    requires forall i | 0 <= i < |back| :: back[i] in " \t\r\n"
    ensures CheckedShare(front + typed + back, slot) == Accepted(share)
  {
    TypedEnds(share, slot, typed);
    Surrounded(typed, front, back);
    TypedLower(share, slot, typed);
    hide Normal, Strip, StripFront, StripBack, IsShare, AnyCase, IsSpace;
    NormalIs(front + typed + back, typed, share);
    CheckedShareExactly(front + typed + back, slot, if slot == 0 then 1 else 0);
  }

  lemma TypedEnds(share: string, slot: nat, typed: string)
    requires slot <= 9 && IsShare(share, slot) && AnyCase(share, typed)
    ensures !IsSpace(typed[0]) && !IsSpace(typed[|typed| - 1])
  {
    assert share[|share| - 1] == share[2..][|share| - 3];
  }

  lemma Surrounded(typed: string, front: string, back: string)
    requires typed != "" && !IsSpace(typed[0]) && !IsSpace(typed[|typed| - 1])
    requires forall i | 0 <= i < |front| :: front[i] in " \t\r\n"
    requires forall i | 0 <= i < |back| :: back[i] in " \t\r\n"
    ensures Strip(front + typed + back) == typed
  {
    hide IsSpace;
    assert front + typed + back == front + (typed + back);
    StripsFront(front, typed + back);
    StripsBack(typed, back);
  }

  lemma TypedLower(share: string, slot: nat, typed: string)
    requires slot <= 9 && IsShare(share, slot) && AnyCase(share, typed)
    ensures Lower(typed) == share
  {
    forall i | 0 <= i < |share| ensures LowerChar(typed[i]) == share[i] {
      if i >= 2 { assert IsHexDigit(share[2..][i - 2]); }
    }
  }

  lemma NormalIs(raw: string, stripped: string, lower: string)
    requires Strip(raw) == stripped && Lower(stripped) == lower
    ensures Normal(raw) == lower
  {
  }

  // ---------- the table ----------

  predicate ValidKey(key: Key) {
    1 <= key.slot <= 4 && key.generation <= MAX_GENERATION
  }

  /** One row per id and one per seal, slot and generation; ids grow and are never reused. */
  ghost predicate Valid(t: Table) {
    && t.nextId >= 1
    && (forall r | r in t.rows :: 1 <= r.id < t.nextId && ValidKey(r.key))
    && (forall r, q | r in t.rows && q in t.rows && r.id == q.id :: r == q)
    && (forall r, q | r in t.rows && q in t.rows && r.key == q.key :: r == q)
  }

  ghost function RowAt(t: Table, key: Key): (r: Option<Row>)
    ensures r.Some? ==> r.value in t.rows && r.value.key == key
    ensures r.None? <==> forall q | q in t.rows :: q.key != key
  {
    if exists r | r in t.rows :: r.key == key then
      var r :| r in t.rows && r.key == key;
      Some(r)
    else None
  }

  datatype Write = Inserted | Identical | Conflict | Refused

  ghost function WriteOutcome(t: Table, key: Key, data: string): Write {
    if !ValidKey(key) then Refused
    else if RowAt(t, key).None? then Inserted
    else if Normal(RowAt(t, key).value.data) == Normal(data) then Identical
    else Conflict
  }

  ghost function AfterWrite(t: Table, key: Key, data: string): Table {
    if WriteOutcome(t, key, data).Inserted? then
      Table(t.rows + {Row(t.nextId, key, data)}, t.nextId + 1, t.audit)
    else t
  }

  datatype Removal = Removed | NotFound | Changed | Invalid | Failed

  /** What a removal names: the row the administrator saw, and why. */
  datatype Request = Request(key: Key, expectedId: nat, operator: string, reason: string)

  predicate ValidRequest(q: Request) {
    ValidKey(q.key) && q.expectedId >= 1 && q.operator != ""
    && Strip(q.reason) != "" && |q.reason| <= MAX_REASON_LENGTH
  }

  /** `auditFails`: the audit row cannot be written, so the deletion is rolled back. */
  ghost function RemovalOutcome(t: Table, q: Request, auditFails: bool): Removal {
    if !ValidRequest(q) then Invalid
    else if RowAt(t, q.key).None? then NotFound
    else if RowAt(t, q.key).value.id != q.expectedId then Changed
    else if auditFails then Failed
    else Removed
  }

  ghost function AfterRemoval(t: Table, q: Request, auditFails: bool, hash: string -> nat): Table {
    if RemovalOutcome(t, q, auditFails).Removed? then
      var row := RowAt(t, q.key).value;
      Table(t.rows - {row}, t.nextId, t.audit + [Audit(row.key, hash(Normal(row.data)), q.operator, Strip(q.reason))])
    else t
  }

  /** `key_shares` and `share_removal_audit`. */
  class ShareStore {
    const hash: string -> nat
    var rows: set<Row>
    var nextId: nat
    var audit: seq<Audit>

    constructor (hash: string -> nat)
      ensures View() == Table({}, 1, []) && this.hash == hash
    {
      this.hash := hash;
      rows, nextId, audit := {}, 1, [];
    }

    ghost function View(): Table
      reads this
    {
      Table(rows, nextId, audit)
    }

    /** `_share_at`: the one row stored for a key. */
    method Find(key: Key) returns (found: Option<Row>)
      requires Valid(View())
      ensures found == RowAt(View(), key)
    {
      if r :| r in rows && r.key == key {
        found := Some(r);
      } else {
        found := None;
      }
    }

    method StoreKeyShare(key: Key, data: string) returns (outcome: Write)
      requires Valid(View())
      modifies this
      ensures Valid(View())
      ensures outcome == WriteOutcome(old(View()), key, data)
      ensures outcome.Refused? <==> !(1 <= key.slot <= 4 && key.generation <= 0x7FFF_FFFF)
      ensures outcome.Inserted? ==>
        && (forall r | r in old(rows) :: r.key != key)
        && (exists r :: r in rows && r.key == key && r.data == data && rows == old(rows) + {r} && r !in old(rows))
      ensures outcome.Identical? ==> exists r :: r in old(rows) && r.key == key && Normal(r.data) == Normal(data)
      ensures outcome.Conflict? ==> exists r :: r in old(rows) && r.key == key && Normal(r.data) != Normal(data)
      ensures !outcome.Inserted? ==> rows == old(rows)
      ensures audit == old(audit)
      ensures View() == AfterWrite(old(View()), key, data)
    {
      if !ValidKey(key) { return Refused; }
      var existing := Find(key);
      if existing.Some? {
        if Normal(existing.value.data) == Normal(data) { return Identical; }
        return Conflict;
      }
      var row := Row(nextId, key, data);
      rows := rows + {row};
      assert row in rows && row.key == key && row.data == data;
      nextId := nextId + 1;
      return Inserted;
    }

    method RemoveKeyShare(q: Request, auditFails: bool) returns (outcome: Removal)
      requires Valid(View())
      modifies this
      ensures Valid(View())
      ensures outcome == RemovalOutcome(old(View()), q, auditFails)
      ensures outcome.Removed? ==>
        && !auditFails && q.operator != "" && Strip(q.reason) != ""
        && exists r :: r in old(rows) && r.id == q.expectedId && r.key == q.key && rows == old(rows) - {r}
                       && audit == old(audit) + [Audit(q.key, hash(Normal(r.data)), q.operator, Strip(q.reason))]
      ensures !outcome.Removed? ==> rows == old(rows) && audit == old(audit)
      ensures outcome.NotFound? ==> forall r | r in old(rows) :: r.key != q.key
      ensures outcome.Changed? ==> exists r :: r in old(rows) && r.key == q.key && r.id != q.expectedId
      ensures View() == AfterRemoval(old(View()), q, auditFails, hash)
    {
      if !ValidRequest(q) { return Invalid; }
      var existing := Find(q.key);
      if existing.None? { return NotFound; }
      var row := existing.value;
      if row.id != q.expectedId { return Changed; }
      if auditFails { return Failed; }
      rows := rows - {row};
      audit := audit + [Audit(row.key, hash(Normal(row.data)), q.operator, Strip(q.reason))];
      return Removed;
    }
  }

  // ---------- the removal form ----------

  /** The form's fields as they are submitted. */
  datatype Form = Form(seal: string, slot: string, generation: string, rowId: string, reason: string)

  /** `_int`: at most ten ASCII digits, once stripped. */
  function IntField(text: string): Option<nat> {
    var digits := Strip(text);
    if IsDecimal(digits) && |digits| <= 10 then Some(Value(digits)) else None
  }

  lemma DecimalIsStripped(digits: string)
    requires IsDecimal(digits)
    ensures Strip(digits) == digits
  {
  }

  /** A number that the share list printed is read back unchanged. */
  lemma IntFieldReadsBack(n: nat)
    ensures IntField(Decimal(n)) == if n < 10_000_000_000 then Some(n) else None
  {
    hide Power, Decimal, Value, Strip, IsDecimal;
    ValueOfDecimal(n);
    DecimalWidth(n, 10);
    TenDigits();
    DecimalIsStripped(Decimal(n));
  }

  /** The request that a form names; None is answered 400 and touches nothing. */
  function RequestOf(form: Form, operator: string): Option<Request> {
    var seal, reason := Strip(form.seal), Strip(form.reason);
    var slot, generation, rowId := IntField(form.slot), IntField(form.generation), IntField(form.rowId);
    if seal == "" || |seal| > MAX_SEAL_ID_LENGTH || slot.None? || !(1 <= slot.value <= 4)
       || generation.None? || generation.value > MAX_GENERATION || rowId.None? || rowId.value < 1
       || reason == "" || |reason| > MAX_REASON_LENGTH then None
    else Some(Request(Key(seal, slot.value, generation.value), rowId.value, operator, reason))
  }

  /** What a form names, field by field, and in which bounds. */
  lemma RequestExactly(form: Form, operator: string, q: Request)
    ensures RequestOf(form, operator) == Some(q) <==>
      && q.key.seal == Strip(form.seal) && 1 <= |q.key.seal| <= MAX_SEAL_ID_LENGTH
      && IntField(form.slot) == Some(q.key.slot) && 1 <= q.key.slot <= 4
      && IntField(form.generation) == Some(q.key.generation) && q.key.generation <= 0x7FFF_FFFF
      && IntField(form.rowId) == Some(q.expectedId) && q.expectedId >= 1
      && q.reason == Strip(form.reason) && 1 <= |q.reason| <= MAX_REASON_LENGTH
      && q.operator == operator
  {
  }

  /** A form filled in from a listed share names that share. */
  lemma FormReadsBack(q: Request)
    requires ValidRequest(q) && q.expectedId < 10_000_000_000 && Strip(q.key.seal) == q.key.seal && Strip(q.reason) == q.reason
    requires 1 <= |q.key.seal| <= MAX_SEAL_ID_LENGTH
    ensures RequestOf(Form(q.key.seal, Decimal(q.key.slot), Decimal(q.key.generation), Decimal(q.expectedId), q.reason), q.operator)
      == Some(q)
  {
    IntFieldReadsBack(q.key.slot);
    IntFieldReadsBack(q.key.generation);
    IntFieldReadsBack(q.expectedId);
  }

  /** `remove_from_form`: the answer's status. Only 200 changes the table, and then by
      exactly the row whose id the form names. */
  method RemoveFromForm(store: ShareStore, form: Form, operator: string, auditFails: bool) returns (status: nat)
    requires Valid(store.View())
    modifies store
    ensures Valid(store.View())
    ensures status in {200, 400, 404, 409, 503}
    ensures status == 400 <==> RequestOf(form, operator).None?
    ensures status != 200 ==> store.View() == old(store.View())
    ensures status == 200 ==>
      && var q := RequestOf(form, operator).value;
      && (exists r :: r in old(store.rows) && r.id == q.expectedId && r.key == q.key
                      && store.rows == old(store.rows) - {r})
      && |store.audit| == |old(store.audit)| + 1
    // a share is missing, another one, or the one the form was filled in for
    ensures RequestOf(form, operator).Some? && operator != "" ==>
      && var q := RequestOf(form, operator).value;
      && var stored := RowAt(old(store.View()), q.key);
      && (status == 404 <==> stored.None?)
      && (status == 409 <==> stored.Some? && stored.value.id != q.expectedId)
      && (status == 503 <==> stored.Some? && stored.value.id == q.expectedId && auditFails)
  {
    var q := RequestOf(form, operator);
    if q.None? { return 400; }
    assert operator != "" ==> ValidRequest(q.value) by { RequestExactly(form, operator, q.value); }
    assert operator == "" ==> !ValidRequest(q.value) by { RequestExactly(form, operator, q.value); }
    hide Valid, RequestOf, ValidRequest, ValidKey, Strip, Normal, AfterRemoval, IntField;
    var outcome := store.RemoveKeyShare(q.value, auditFails);
    match outcome
    case Removed => return 200;
    case NotFound => return 404;
    case Changed => return 409;
    case Invalid => return 503;
    case Failed => return 503;
  }

  // ---------- runs ----------

  datatype Action =
    | Upload(key: Key, data: string)
    | Remove(request: Request, auditFails: bool)

  ghost function Next(t: Table, a: Action, hash: string -> nat): Table {
    match a
    case Upload(key, data) => AfterWrite(t, key, data)
    case Remove(q, auditFails) => AfterRemoval(t, q, auditFails, hash)
  }

  ghost predicate IsRun(tables: seq<Table>, actions: seq<Action>, hash: string -> nat) {
    && |tables| == |actions| + 1
    && tables[0] == Table({}, 1, [])
    && forall i | 0 <= i < |actions| :: tables[i + 1] == Next(tables[i], actions[i], hash)
  }

  lemma StepKeepsValid(t: Table, a: Action, hash: string -> nat)
    requires Valid(t)
    ensures Valid(Next(t, a, hash)) && t.nextId <= Next(t, a, hash).nextId
  {
  }

  lemma {:induction false} RunValid(tables: seq<Table>, actions: seq<Action>, hash: string -> nat, i: nat)
    requires IsRun(tables, actions, hash) && i < |tables|
    ensures Valid(tables[i])
  {
    hide Valid;
    if i == 0 {
      EmptyValid();
    } else {
      RunValid(tables, actions, hash, i - 1);
      StepKeepsValid(tables[i - 1], actions[i - 1], hash);
    }
  }

  lemma EmptyValid()
    ensures Valid(Table({}, 1, []))
  {
  }

  /** At most one share is stored per seal, slot and generation, in every state of every run. */
  lemma OneSharePerKey(tables: seq<Table>, actions: seq<Action>, hash: string -> nat, i: nat, a: Row, b: Row)
    requires IsRun(tables, actions, hash) && i < |tables|
    requires a in tables[i].rows && b in tables[i].rows && (a.key == b.key || a.id == b.id)
    ensures a == b
  {
    RunValid(tables, actions, hash, i);
  }

  lemma StepIds(t: Table, a: Action, hash: string -> nat, r: Row)
    requires Valid(t) && r in Next(t, a, hash).rows && r.id < t.nextId
    ensures r in t.rows
  {
  }

  /** A row id means one stored share for ever: no upload changes a stored value, and a
      share removed and uploaded again has another id. */
  lemma {:induction false} RowsNeverChange(tables: seq<Table>, actions: seq<Action>, hash: string -> nat,
                                           i: nat, j: nat, a: Row, b: Row)
    requires IsRun(tables, actions, hash) && i <= j < |tables|
    requires a in tables[i].rows && b in tables[j].rows && a.id == b.id
    ensures a == b && b.id < tables[i].nextId && (forall k | i <= k <= j :: b in tables[k].rows)
    decreases j
  {
    RunValid(tables, actions, hash, i);
    if i < j {
      RunValid(tables, actions, hash, j - 1);
      NextIdGrows(tables, actions, hash, i, j - 1);
      StepIds(tables[j - 1], actions[j - 1], hash, b);
      RowsNeverChange(tables, actions, hash, i, j - 1, a, b);
    }
  }

  lemma {:induction false} NextIdGrows(tables: seq<Table>, actions: seq<Action>, hash: string -> nat, i: nat, j: nat)
    requires IsRun(tables, actions, hash) && i <= j < |tables|
    ensures tables[i].nextId <= tables[j].nextId
    decreases j
  {
    if i < j {
      NextIdGrows(tables, actions, hash, i, j - 1);
      RunValid(tables, actions, hash, j - 1);
      StepKeepsValid(tables[j - 1], actions[j - 1], hash);
    }
  }

  /** A removal form filled in from the share `seen` in an earlier state removes that very
      share or nothing, however often it is sent and whatever was removed and uploaded since. */
  lemma FormRemovesWhatWasSeen(tables: seq<Table>, actions: seq<Action>, hash: string -> nat, i: nat, j: nat, seen: Row)
    requires IsRun(tables, actions, hash) && i <= j < |actions| && seen in tables[i].rows
    requires actions[j].Remove? && actions[j].request.expectedId == seen.id
    ensures tables[j + 1] != tables[j] ==>
      && seen in tables[j].rows && tables[j + 1].rows == tables[j].rows - {seen}
      && actions[j].request.key == seen.key
      && (forall k | j < k < |tables| :: seen !in tables[k].rows)
  {
    if tables[j + 1] != tables[j] {
      var row := RowAt(tables[j], actions[j].request.key).value;
      RowsNeverChange(tables, actions, hash, i, j, seen, row);
      assert seen !in tables[j + 1].rows;
      forall k | j < k < |tables| ensures seen !in tables[k].rows {
        if seen in tables[k].rows { RowsNeverChange(tables, actions, hash, i, k, seen, seen); }
      }
    }
  }

  /** How many of the first `n` actions stored a new row. */
  ghost function InsertedCount(tables: seq<Table>, actions: seq<Action>, n: nat): nat
    requires n <= |actions| <= |tables|
  {
    if n == 0 then 0
    else
      var a := actions[n - 1];
      var one := if a.Upload? && WriteOutcome(tables[n - 1], a.key, a.data).Inserted? then 1 else 0;
      InsertedCount(tables, actions, n - 1) + one
  }

  /** Rows ever stored are the rows present and one audit row for each removed one. */
  lemma {:induction false} RowsAreConserved(tables: seq<Table>, actions: seq<Action>, hash: string -> nat, n: nat)
    requires IsRun(tables, actions, hash) && n <= |actions|
    ensures InsertedCount(tables, actions, n) == |tables[n].rows| + |tables[n].audit| == tables[n].nextId - 1
  {
    hide Next, Valid, WriteOutcome;
    if n > 0 {
      RowsAreConserved(tables, actions, hash, n - 1);
      RunValid(tables, actions, hash, n - 1);
      StepConserves(tables[n - 1], actions[n - 1], hash);
    }
  }

  lemma StepConserves(t: Table, a: Action, hash: string -> nat)
    requires Valid(t)
    ensures var t' := Next(t, a, hash);
      var one := if a.Upload? && WriteOutcome(t, a.key, a.data).Inserted? then 1 else 0;
      |t'.rows| + |t'.audit| == |t.rows| + |t.audit| + one && t'.nextId == t.nextId + one
  {
  }
}
