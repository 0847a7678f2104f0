/**
 * The greedy batching of benchmark cases, over exact reals: no other way of cutting
 * the same ordered list into batches uses fewer.
 */
module BatchPlanner {

  datatype Case = Case(name: string, sizeGb: real)

  /** `max(case["size_gb"], 0.001)`. */
  function Size(c: Case): (size: real)
    ensures size >= 0.001 && size >= c.sizeGb && (size == 0.001 || size == c.sizeGb)
  {
    if c.sizeGb < 0.001 then 0.001 else c.sizeGb
  }

  function Total(batch: seq<Case>): real {
    if batch == [] then 0.0 else Total(batch[..|batch| - 1]) + Size(batch[|batch| - 1])
  }

  function Joined(batches: seq<seq<Case>>): seq<Case> {
    if batches == [] then [] else Joined(batches[..|batches| - 1]) + batches[|batches| - 1]
  }

  /** A batch holds one case, or several that fit the cap together. */
  predicate Fits(batch: seq<Case>, cap: real) {
    |batch| == 1 || (|batch| > 1 && Total(batch) <= cap)
  }

  /** A cut of `cases` into consecutive batches that may be run. */
  predicate IsPlan(batches: seq<seq<Case>>, cases: seq<Case>, cap: real) {
    Joined(batches) == cases && forall i | 0 <= i < |batches| :: Fits(batches[i], cap)
  }

  /** The first case of the next batch would not have fitted. */
  predicate IsFull(batch: seq<Case>, next: seq<Case>, cap: real) {
    next != [] && Total(batch) + Size(next[0]) > cap
  }

  ghost predicate IsGreedy(batches: seq<seq<Case>>, cap: real) {
    forall i, j | 0 <= i < j < |batches| && j == i + 1 :: IsFull(batches[i], batches[j], cap)
  }

  lemma {:induction false} TotalOfJoined(a: seq<Case>, b: seq<Case>)
    ensures Total(a + b) == Total(a) + Total(b) && Total(b) >= 0.0
  {
    if b == [] {
      assert a + b == a;
    } else {
      var front, last := b[..|b| - 1], b[|b| - 1];
      TotalOfJoined(a, front);
      assert (a + b)[..|a + b| - 1] == a + front;
    }
  }

  /** The total is the sum of the sizes, and joining keeps every case in its place. */
  lemma TotalAndJoinedOf(a: Case, b: Case, first: seq<Case>, second: seq<Case>)
    ensures Total([]) == 0.0 && Total([a]) == Size(a) && Total([a, b]) == Size(a) + Size(b)
    ensures Joined([]) == [] && Joined([first]) == first && Joined([first, second]) == first + second
  {
    assert [a, b][..1] == [a] && [a][..0] == [];
    assert [first, second][..1] == [first] && [first][..0] == [];
  }

  /** Where the first `k` batches end in the joined list. */
  function End(batches: seq<seq<Case>>, k: nat): nat
    requires k <= |batches|
  {
    |Joined(batches[..k])|
  }

  lemma {:induction false} BatchIsSlice(batches: seq<seq<Case>>, cases: seq<Case>, k: nat)
    requires Joined(batches) == cases && k < |batches|
    ensures End(batches, k) + |batches[k]| == End(batches, k + 1) <= |cases|
    ensures cases[End(batches, k)..End(batches, k + 1)] == batches[k]
    decreases |batches|
  {
    var front := batches[..|batches| - 1];
    if k == |front| {
      assert batches[..k + 1] == batches;
    } else {
      BatchIsSlice(front, Joined(front), k);
      assert front[..k] == batches[..k] && front[..k + 1] == batches[..k + 1];
    }
  }

  lemma WiderSliceIsLarger(cases: seq<Case>, a: nat, c: nat, d: nat, b: nat)
    requires a <= c <= d <= b <= |cases|
    ensures Total(cases[c..d]) <= Total(cases[a..b])
  {
    hide Total;
    TotalOfJoined(cases[a..c], cases[c..d]);
    TotalOfJoined(cases[a..c] + cases[c..d], cases[d..b]);
    TotalOfJoined(cases[..a], cases[a..c]);
    assert cases[a..b] == cases[a..c] + cases[c..d] + cases[d..b];
  }

  /** The greedy batches stay ahead: their first `k` cover at least what any plan's do. */
  lemma {:induction false} GreedyIsAhead(batches: seq<seq<Case>>, other: seq<seq<Case>>, cases: seq<Case>, cap: real, k: nat)
    requires IsPlan(batches, cases, cap) && IsGreedy(batches, cap) && IsPlan(other, cases, cap)
    requires k <= |batches| && k <= |other|
    ensures End(other, k) <= End(batches, k)
  {
    if k > 0 {
      GreedyIsAhead(batches, other, cases, cap, k - 1);
      BatchIsSlice(batches, cases, k - 1);
      BatchIsSlice(other, cases, k - 1);
      if End(other, k) > End(batches, k) { Overtaken(batches, other, cases, cap, k); }
    }
  }

  lemma OneCaseMore(cases: seq<Case>, c: nat, d: nat)
    requires c <= d < |cases|
    ensures Total(cases[c..d + 1]) == Total(cases[c..d]) + Size(cases[d])
  {
    assert cases[c..d + 1][..d - c] == cases[c..d];
  }

  /** A greedy batch with the case after it does not fit. */
  lemma NextTooBig(batches: seq<seq<Case>>, cases: seq<Case>, cap: real, k: nat)
    requires IsPlan(batches, cases, cap) && IsGreedy(batches, cap) && 1 <= k < |batches|
    ensures End(batches, k - 1) < End(batches, k) < |cases|
    ensures Total(cases[End(batches, k - 1)..End(batches, k) + 1]) > cap
  {
    BatchIsSlice(batches, cases, k - 1);
    BatchIsSlice(batches, cases, k);
    var c, d := End(batches, k - 1), End(batches, k);
    assert IsFull(batches[k - 1], batches[k], cap);
    assert cases[d] == cases[d..End(batches, k + 1)][0];
    OneCaseMore(cases, c, d);
  }

  /** A plan's batch that ended later would hold a whole greedy batch and its next case. */
  lemma Overtaken(batches: seq<seq<Case>>, other: seq<seq<Case>>, cases: seq<Case>, cap: real, k: nat)
    requires IsPlan(batches, cases, cap) && IsGreedy(batches, cap) && IsPlan(other, cases, cap)
    requires 1 <= k <= |batches| && k <= |other|
    requires End(other, k - 1) <= End(batches, k - 1)
    ensures End(other, k) <= End(batches, k)
  {
    BatchIsSlice(other, cases, k - 1);
    if k == |batches| {
      assert batches[..k] == batches;
    } else {
      NextTooBig(batches, cases, cap, k);
      if End(batches, k) < End(other, k) {
        WiderSliceIsLarger(cases, End(other, k - 1), End(batches, k - 1), End(batches, k) + 1, End(other, k));
      }
    }
  }

  lemma {:induction false} JoinedOfFront(batches: seq<seq<Case>>, k: nat)
    requires k < |batches| && batches[k] != []
    ensures End(batches, k) < |Joined(batches)|
  {
    BatchIsSlice(batches, Joined(batches), k);
  }

  lemma GreedyIsOptimal(batches: seq<seq<Case>>, other: seq<seq<Case>>, cases: seq<Case>, cap: real)
    requires IsPlan(batches, cases, cap) && IsGreedy(batches, cap) && IsPlan(other, cases, cap)
    ensures |batches| <= |other|
  {
    if |other| < |batches| {
      GreedyIsAhead(batches, other, cases, cap, |other|);
      assert other[..|other|] == other;
      JoinedOfFront(batches, |other|);
    }
  }

  /** The batch being filled takes one more case. */
  lemma Taken(batches: seq<seq<Case>>, current: seq<Case>, c: Case, cap: real)
    requires current != [] && Fits(current, cap) && IsGreedy(batches + [current], cap)
    requires Total(current) + Size(c) <= cap
    ensures Fits(current + [c], cap) && IsGreedy(batches + [current + [c]], cap)
  {
    assert (current + [c])[..|current|] == current;
    var before, after := batches + [current], batches + [current + [c]];
    forall i, j | 0 <= i < j < |after| && j == i + 1 ensures IsFull(after[i], after[j], cap) {
      assert IsFull(before[i], before[j], cap);
    }
  }

  /** The batch being filled is closed by a case that does not fit. */
  lemma Closed(batches: seq<seq<Case>>, current: seq<Case>, c: Case, cap: real)
    requires IsGreedy(batches + [current], cap) && Total(current) + Size(c) > cap
    ensures IsGreedy(batches + [current] + [[c]], cap)
  {
  }

  lemma JoinedOfOneMore(batches: seq<seq<Case>>, batch: seq<Case>)
    ensures Joined(batches + [batch]) == Joined(batches) + batch
  {
  }

  lemma TotalOfOne(batch: seq<Case>, c: Case)
    ensures Total(batch + [c]) == Total(batch) + Size(c)
  {
  }

  /** `command_plan`'s loop. */
  method PlanBatches(cases: seq<Case>, cap: real) returns (batches: seq<seq<Case>>)
    ensures IsPlan(batches, cases, cap)
    ensures forall other | IsPlan(other, cases, cap) :: |batches| <= |other|
    ensures Joined(batches) == cases
    ensures forall i | 0 <= i < |batches| :: |batches[i]| >= 1 && (|batches[i]| > 1 ==> Total(batches[i]) <= cap)
  {
    hide IsGreedy, Joined, Total;
    NothingJoined();
    batches := [];
    var current: seq<Case>, currentTotal := [], 0.0;
    var n := 0;
    while n < |cases|
      invariant 0 <= n <= |cases|
      invariant Joined(batches) + current == cases[..n] && currentTotal == Total(current)
      invariant forall i | 0 <= i < |batches| :: Fits(batches[i], cap)
      invariant if current == [] then batches == [] && n == 0 else Fits(current, cap) && IsGreedy(batches + [current], cap)
    {
      var size := Size(cases[n]);
      assert cases[..n + 1] == cases[..n] + [cases[n]];
      if current != [] && currentTotal + size > cap {
        Closed(batches, current, cases[n], cap);
        JoinedOfOneMore(batches, current);
        batches := batches + [current];
        current, currentTotal := [], 0.0;
      } else if current != [] {
        Taken(batches, current, cases[n], cap);
      } else {
        SingleIsGreedy([cases[n]], cap);
      }
      if current == [] { assert current + [cases[n]] == [cases[n]]; }
      TotalOfOne(current, cases[n]);
      assert Joined(batches) + current + [cases[n]] == Joined(batches) + (current + [cases[n]]);
      current := current + [cases[n]];
      currentTotal := currentTotal + size;
      n := n + 1;
    }
    assert cases[..n] == cases;
    if current != [] {
      JoinedOfOneMore(batches, current);
      batches := batches + [current];
    } else {
      SingleIsGreedy([], cap);
    }
    forall other | IsPlan(other, cases, cap) ensures |batches| <= |other| {
      GreedyIsOptimal(batches, other, cases, cap);
    }
  }

  lemma NothingJoined()
    ensures Joined([]) == [] && Total([]) == 0.0
  {
  }

  lemma SingleIsGreedy(batch: seq<Case>, cap: real)
    ensures IsGreedy([], cap) && IsGreedy([] + [batch], cap)
  {
  }
}
