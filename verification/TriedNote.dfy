/** The audit note naming the stored shares that a release tried without a match. */
module TriedNote {
  import opened Bytes
  import opened Text
  import opened Shares

  const MIN_BUDGET: nat := 48

  function JoinWith(separator: string, parts: seq<string>): string {
    if parts == [] then ""
    else if |parts| == 1 then parts[0]
    else JoinWith(separator, parts[..|parts| - 1]) + separator + parts[|parts| - 1]
  }

  function Named(row: StoredShare): string {
    "share " + Decimal(row.index) + " of generation " + Decimal(row.generation)
  }

  function Entry(used: seq<StoredShare>): string {
    JoinWith(" + ", seq(|used|, i requires 0 <= i < |used| => Named(used[i])))
  }

  /** One entry for each attempt that used a stored share. */
  function Entries(attempts: seq<Attempt>): seq<string> {
    if attempts == [] then []
    else
      var last := attempts[|attempts| - 1];
      Entries(attempts[..|attempts| - 1]) + if last.used == [] then [] else [Entry(last.used)]
  }

  function Full(tried: seq<string>): string {
    "tried: " + JoinWith(" | ", tried)
  }

  /** The first `k` entries and how many more there are. */
  function Shortened(tried: seq<string>, k: nat): string
    requires k <= |tried|
  {
    Full(tried[..k]) + " | ... (" + Decimal(|tried| - k) + " more)"
  }

  function OnlyCount(tried: seq<string>): string {
    "tried: " + Decimal(|tried|) + " stored share combination(s)"
  }

  lemma OneDigitFewer(n: nat)
    ensures |Decimal(n + 1)| <= |Decimal(n)| + 1
  {
    var width := |Decimal(n)|;
    DecimalWidth(n, width);
    PowerGrowsTenfold(width);
    DecimalWidth(n + 1, width + 1);
  }

  lemma PowerGrowsTenfold(k: nat)
    ensures Power(k + 1) == 10 * Power(k) && Power(k) >= 1
  {
    if k > 0 { PowerGrowsTenfold(k - 1); }
  }

  /** Another entry makes the note longer, although its count may lose a digit. */
  lemma ShortenedGrows(tried: seq<string>, k: nat)
    requires 1 <= k < |tried|
    ensures |Shortened(tried, k)| < |Shortened(tried, k + 1)|
  {
    OneDigitFewer(|tried| - k - 1);
    assert tried[..k + 1][..k] == tried[..k];
  }

  lemma {:induction false} TooLongStays(tried: seq<string>, budget: nat, k: nat, j: nat)
    requires 1 <= k <= j <= |tried| && |Shortened(tried, k)| > budget
    ensures |Shortened(tried, j)| > budget
    decreases j
  {
    if k < j {
      TooLongStays(tried, budget, k, j - 1);
      ShortenedGrows(tried, j - 1);
    }
  }

  /** With no entry left out, the shortened form is longer than the full note. */
  lemma ShortenedAll(tried: seq<string>)
    ensures |Shortened(tried, |tried|)| > |Full(tried)|
  {
    assert tried[..|tried|] == tried;
  }

  /** `k` is how many entries fit together with the count of the others. */
  ghost predicate LongestPrefix(tried: seq<string>, budget: nat, k: nat) {
    && k < |tried|
    && (k > 0 ==> |Shortened(tried, k)| <= budget)
    && forall j | k < j <= |tried| :: |Shortened(tried, j)| > budget
  }

  /** How an attempt is named, and how names and entries are joined. */
  lemma EntryReads(a: StoredShare, b: StoredShare, x: string, y: string)
    ensures Entry([a]) == "share " + Decimal(a.index) + " of generation " + Decimal(a.generation)
    ensures Entry([a, b]) == Entry([a]) + " + " + Entry([b])
    ensures Full([x]) == "tried: " + x && Full([x, y]) == "tried: " + x + " | " + y
    ensures forall tried | tried != [] :: Full(tried + [x]) == Full(tried) + " | " + x
  {
    forall tried: seq<string> | tried != [] ensures Full(tried + [x]) == Full(tried) + " | " + x {
      assert (tried + [x])[..|tried|] == tried;
    }
    assert [Named(a), Named(b)][..1] == [Named(a)] && [x, y][..1] == [x];
    assert seq(1, i requires 0 <= i < 1 => Named([a][i])) == [Named(a)];
    assert seq(1, i requires 0 <= i < 1 => Named([b][i])) == [Named(b)];
    assert seq(2, i requires 0 <= i < 2 => Named([a, b][i])) == [Named(a), Named(b)];
  }

  /** An attempt has an entry exactly when it used a stored share. */
  lemma EntriesOf(attempts: seq<Attempt>, last: Attempt)
    ensures last.used == [] ==> Entries(attempts + [last]) == Entries(attempts)
    ensures last.used != [] ==> Entries(attempts + [last]) == Entries(attempts) + [Entry(last.used)]
  {
    assert (attempts + [last])[..|attempts|] == attempts;
  }

  /** The printed count: kept and left-out entries are all that were tried, at least one left out. */
  lemma CountIsTheRest(tried: seq<string>, k: nat)
    requires k < |tried|
    ensures exists more: nat :: LeavesOut(tried, k, more)
  {
    var more: nat := |tried| - k;
    assert LeavesOut(tried, k, more);
  }

  ghost predicate LeavesOut(tried: seq<string>, k: nat, more: nat)
    requires k <= |tried|
  {
    && k + more == |tried| && more >= 1
    && Shortened(tried, k) == Full(tried[..k]) + " | ... (" + Decimal(more) + " more)"
    && (k == 0 ==> OnlyCount(tried) == "tried: " + Decimal(more) + " stored share combination(s)")
  }

  /** `tried_note`; None where it raises. */
  method Note(attempts: seq<Attempt>, budget: int) returns (note: Option<string>)
    ensures note.None? <==> budget < MIN_BUDGET
    ensures note.Some? && Entries(attempts) == [] ==> note.value == ""
    ensures note.Some? && Entries(attempts) != [] && |Full(Entries(attempts))| <= budget ==>
      note.value == Full(Entries(attempts))
    ensures note.Some? && Entries(attempts) != [] && |Full(Entries(attempts))| > budget ==>
      exists k :: LongestPrefix(Entries(attempts), budget, k)
        && note.value == if k == 0 then OnlyCount(Entries(attempts)) else Shortened(Entries(attempts), k)
  {
    hide Decimal, JoinWith, Entry;
    if budget < MIN_BUDGET { return None; }
    var tried: seq<string> := [];
    for i := 0 to |attempts|
      invariant tried == Entries(attempts[..i])
    {
      assert attempts[..i + 1][..i] == attempts[..i];
      if attempts[i].used != [] { tried := tried + [Entry(attempts[i].used)]; }
    }
    assert attempts[..|attempts|] == attempts;
    if tried == [] { return Some(""); }
    var text := Full(tried);
    if |text| <= budget { return Some(text); }
    var kept: seq<string> := [];
    while |kept| < |tried|
      invariant |kept| <= |tried| && kept == tried[..|kept|]
      invariant kept != [] ==> |Shortened(tried, |kept|)| <= budget
    {
      var more := |tried| - |kept| - 1;
      var longer := kept + [tried[|kept|]];
      assert longer == tried[..|kept| + 1];
      if |Full(longer) + " | ... (" + Decimal(more) + " more)"| > budget {
        forall j | |kept| < j <= |tried| ensures |Shortened(tried, j)| > budget {
          TooLongStays(tried, budget, |kept| + 1, j);
        }
        break;
      }
      kept := longer;
    }
    ShortenedAll(tried);
    assert LongestPrefix(tried, budget, |kept|);
    if kept == [] { return Some("tried: " + Decimal(|tried|) + " stored share combination(s)"); }
    return Some(Full(kept) + " | ... (" + Decimal(|tried| - |kept|) + " more)");
  }

  /** Whatever a note shows, it keeps within its budget exactly when the number of
      attempts, in the one case where only it is shown, has few enough digits. */
  lemma WithinBudget(tried: seq<string>, budget: nat, k: nat)
    requires budget >= MIN_BUDGET && LongestPrefix(tried, budget, k)
    ensures k > 0 || |tried| < Power(budget - 35) <==>
      |if k == 0 then OnlyCount(tried) else Shortened(tried, k)| <= budget
    ensures |tried| < Power(13) ==> k > 0 || |tried| < Power(budget - 35)
  {
    DecimalWidth(|tried|, budget - 35);
    PowerMonotone(13, budget - 35);
  }

  lemma {:induction false} PowerMonotone(a: nat, b: nat)
    requires a <= b
    ensures Power(a) <= Power(b)
    decreases b
  {
    if a < b {
      PowerMonotone(a, b - 1);
      PowerGrowsTenfold(b - 1);
    }
  }
}
