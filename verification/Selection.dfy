/**
 * Which stored record a release rests on: the full scan, the scan down to the
 * high-water mark, and `select_record`, which uses one or the other.
 */
module RecordSelection {
  import opened Bytes
  import opened Policies

  datatype Mark = Mark(generation: nat, digest: string, eventId: nat)

  /** What one pass over the records found. */
  datatype Scan = Scan(chosen: Option<nat>, newest: Option<Selection>, unauthenticated: seq<nat>,
                       lowerGeneration: nat, belowMark: nat, otherPolicy: nat)

  /** What a release rests on: a record, a denial on every path, or (a seal with
      neither mark nor enrollment) the v1.0.1 fallback. */
  datatype Basis = Rests(eventId: nat, policy: Policy) | DeniedEverywhere | Fallback

  /** Event id to record text. */
  type Records = map<nat, string>

  /** The release host: how it classifies a record text (fixed). */
  datatype Host = Host(classify: string -> Selection)
  {
    /** A policy digest is the digest of signed bytes that hold the generation. */
    ghost predicate DigestsBind() {
      forall a, b | Authentic(classify(a)) && Authentic(classify(b))
        && classify(a).policy.value.digest == classify(b).policy.value.digest
        :: classify(a).policy.value.generation == classify(b).policy.value.generation
    }

    predicate AuthenticAt(records: Records, e: nat) {
      e in records && Authentic(classify(records[e]))
    }

    function PolicyAt(records: Records, e: nat): Policy
      requires AuthenticAt(records, e)
    {
      classify(records[e]).policy.value
    }

    function MarkAt(records: Records, e: nat): Mark
      requires AuthenticAt(records, e)
    {
      Mark(PolicyAt(records, e).generation, PolicyAt(records, e).digest, e)
    }

    /** `t` beats `e`: a higher generation, or the same one and a newer event. */
    predicate AtLeast(records: Records, t: nat, e: nat)
      requires AuthenticAt(records, t) && AuthenticAt(records, e)
    {
      var g, h := PolicyAt(records, t).generation, PolicyAt(records, e).generation;
      h < g || (h == g && e <= t)
    }

    /** `t` is the newest record of the highest authenticated generation. */
    ghost predicate IsTop(records: Records, t: nat) {
      AuthenticAt(records, t) && forall e | AuthenticAt(records, e) :: AtLeast(records, t, e)
    }

    predicate Carries(records: Records, digest: string, e: nat) {
      AuthenticAt(records, e) && PolicyAt(records, e).digest == digest
    }

    /** `t` is the newest record carrying exactly the policy `digest`. */
    ghost predicate IsNewestCarrying(records: Records, digest: string, t: nat) {
      Carries(records, digest, t) && forall e: nat | Carries(records, digest, e) :: e <= t
    }

    /** What the record reader yields: every record once, newest first. */
    ghost predicate NewestFirst(listing: seq<(nat, string)>, records: Records) {
      && (forall i, j | 0 <= i < j < |listing| :: listing[j].0 < listing[i].0)
      && (forall i | 0 <= i < |listing| :: listing[i].0 in records && records[listing[i].0] == listing[i].1)
      && (forall e | e in records :: exists i :: 0 <= i < |listing| && listing[i].0 == e)
    }

    ghost predicate Decides(records: Records, mark: Option<Mark>, enrolled: bool, basis: Basis) {
      match basis
      case Rests(e, policy) =>
        && AuthenticAt(records, e) && policy == PolicyAt(records, e)
        && (if mark.None? then IsTop(records, e) else IsNewestCarrying(records, mark.value.digest, e))
      case DeniedEverywhere =>
        && (mark.Some? || enrolled)
        && (forall e :: if mark.None? then !AuthenticAt(records, e) else !Carries(records, mark.value.digest, e))
      case Fallback =>
        mark.None? && !enrolled && forall e :: !AuthenticAt(records, e)
    }

    /** What the order on records means: a higher generation first, then the newer event;
        and the mark of a record names its policy and itself. */
    lemma OrderMeans(records: Records, t: nat, e: nat)
      requires AuthenticAt(records, t) && AuthenticAt(records, e)
      ensures var a, b := classify(records[t]).policy.value, classify(records[e]).policy.value;
        && (AtLeast(records, t, e) <==> b.generation < a.generation || (a.generation == b.generation && e <= t))
        && MarkAt(records, t) == Mark(a.generation, a.digest, t)
        && (Carries(records, a.digest, e) <==> b.digest == a.digest)
    {
    }

    // ---------- the two scans ----------

    /** The generations of the authentic records listed, in order. */
    function Generations(listing: seq<(nat, string)>): seq<nat> {
      if listing == [] then []
      else
        var last := |listing| - 1;
        var found := classify(listing[last].1);
        Generations(listing[..last]) + if Authentic(found) then [found.policy.value.generation] else []
    }

    static function CountBelow(generations: seq<nat>, top: nat): nat {
      if generations == [] then 0
      else
        var last := |generations| - 1;
        CountBelow(generations[..last], top) + if generations[last] < top then 1 else 0
    }

    function Unauthenticated(listing: seq<(nat, string)>): seq<nat> {
      if listing == [] then []
      else
        var last := |listing| - 1;
        Unauthenticated(listing[..last]) + if Authentic(classify(listing[last].1)) then [] else [listing[last].0]
    }

    /** Authentic records with another policy than the mark's: below it, or at or above it. */
    function CountIgnored(listing: seq<(nat, string)>, mark: Mark, below: bool): nat {
      if listing == [] then 0
      else
        var last := |listing| - 1;
        var found := classify(listing[last].1);
        CountIgnored(listing[..last], mark, below)
        + if Authentic(found) && found.policy.value.digest != mark.digest
             && (found.policy.value.generation < mark.generation) == below then 1 else 0
    }

    /** The event kept after reading `listing` from the front. */
    function Kept(listing: seq<(nat, string)>): (kept: Option<(nat, nat)>) {
      if listing == [] then None
      else
        var last := |listing| - 1;
        var (event, text) := listing[last];
        var before, found := Kept(listing[..last]), classify(text);
        if Authentic(found) && (before.None? || found.policy.value.generation > before.value.1)
        then Some((event, found.policy.value.generation)) else before
    }

    lemma {:induction false} KeptIsTop(listing: seq<(nat, string)>, records: Records)
      requires forall i, j | 0 <= i < j < |listing| :: listing[j].0 < listing[i].0
      requires forall i | 0 <= i < |listing| :: listing[i].0 in records && records[listing[i].0] == listing[i].1
      ensures var kept := Kept(listing);
        && (kept.Some? ==>
              && AuthenticAt(records, kept.value.0) && kept.value.1 == PolicyAt(records, kept.value.0).generation
              && exists i :: 0 <= i < |listing| && listing[i].0 == kept.value.0)
        && forall i | 0 <= i < |listing| && AuthenticAt(records, listing[i].0) ::
             kept.Some? && AtLeast(records, kept.value.0, listing[i].0)
    {
      if listing != [] {
        KeptIsTop(listing[..|listing| - 1], records);
      }
    }

    lemma {:induction false} UnauthenticatedAre(listing: seq<(nat, string)>, records: Records, e: nat)
      requires forall i | 0 <= i < |listing| :: listing[i].0 in records && records[listing[i].0] == listing[i].1
      ensures e in Unauthenticated(listing) <==>
        exists i :: 0 <= i < |listing| && listing[i].0 == e && !AuthenticAt(records, e)
    {
      if listing != [] {
        var last := |listing| - 1;
        var front := listing[..last];
        UnauthenticatedAre(front, records, e);
        assert forall i | 0 <= i < |listing| :: listing[i] == if i < last then front[i] else listing[last];
      }
    }

    /** A count over a listing is the number of its entries that are counted. */
    lemma OneMore(s: set<nat>, last: nat, counted: bool)
      requires forall i | i in s :: i < last
      ensures |s + if counted then {last} else {}| == |s| + if counted then 1 else 0
    {
    }

    function Lower(listing: seq<(nat, string)>, top: nat): set<nat> {
      set i: nat | i < |listing| && Authentic(classify(listing[i].1)) && classify(listing[i].1).policy.value.generation < top
    }

    lemma {:induction false} CountBelowIs(listing: seq<(nat, string)>, top: nat)
      ensures CountBelow(Generations(listing), top) == |Lower(listing, top)|
    {
      if listing != [] {
        var last := |listing| - 1;
        var front := listing[..last];
        CountBelowIs(front, top);
        var counted := last in Lower(listing, top);
        OneMore(Lower(front, top), last, counted);
        assert Lower(listing, top) == Lower(front, top) + if counted then {last} else {};
        if Authentic(classify(listing[last].1)) {
          assert Generations(listing)[..|Generations(front)|] == Generations(front);
        } else {
          assert Generations(listing) == Generations(front);
        }
      }
    }

    /** The authentic entries of another policy than the mark's, of a lower generation or not. */
    function Ignored(listing: seq<(nat, string)>, mark: Mark, below: bool): set<nat> {
      set i: nat | i < |listing| && IsIgnored(listing[i].1, mark, below)
    }

    predicate IsIgnored(text: string, mark: Mark, below: bool) {
      && Authentic(classify(text)) && classify(text).policy.value.digest != mark.digest
      && (classify(text).policy.value.generation < mark.generation <==> below)
    }

    lemma {:induction false} CountIgnoredIs(listing: seq<(nat, string)>, mark: Mark, below: bool)
      ensures CountIgnored(listing, mark, below) == |Ignored(listing, mark, below)|
    {
      if listing != [] {
        var last := |listing| - 1;
        var front := listing[..last];
        CountIgnoredIs(front, mark, below);
        var counted := IsIgnored(listing[last].1, mark, below);
        hide IsIgnored;
        OneMore(Ignored(front, mark, below), last, counted);
        assert Ignored(listing, mark, below) == Ignored(front, mark, below) + if counted then {last} else {};
      }
    }

    /** `_scan_all`: every record is read; the highest generation wins, the newest among equals. */
    method ScanAll(listing: seq<(nat, string)>, ghost records: Records) returns (scan: Scan)
      requires NewestFirst(listing, records)
      ensures scan.chosen.Some? ==> IsTop(records, scan.chosen.value)
      ensures scan.chosen.None? ==> forall e :: !AuthenticAt(records, e)
      ensures scan.newest == if listing == [] then None else Some(classify(listing[0].1))
      ensures forall e :: e in scan.unauthenticated <==> e in records && !AuthenticAt(records, e)
      ensures scan.lowerGeneration == CountBelow(Generations(listing),
                if scan.chosen.Some? then PolicyAt(records, scan.chosen.value).generation else 0)
    {
      hide NewestFirst, IsTop;
      var chosen: Option<(nat, nat)> := None;
      var newest: Option<Selection> := None;
      var unauthenticated, generations := [], [];
      for k := 0 to |listing|
        invariant newest == if k == 0 then None else Some(classify(listing[0].1))
        invariant generations == Generations(listing[..k])
        invariant unauthenticated == Unauthenticated(listing[..k])
        invariant chosen == Kept(listing[..k])
      {
        var (event, text) := listing[k];
        var found := classify(text);
        assert listing[..k + 1][..k] == listing[..k];
        newest := if newest.Some? then newest else Some(found);
        if !Authentic(found) {
          unauthenticated := unauthenticated + [event];
        } else {
          var generation := found.policy.value.generation;
          generations := generations + [generation];
          if chosen.None? || generation > chosen.value.1 {
            chosen := Some((event, generation));
          }
        }
      }
      assert listing[..|listing|] == listing;
      var lower := CountLower(generations, if chosen.Some? then chosen.value.1 else 0);
      scan := Scan(if chosen.Some? then Some(chosen.value.0) else None, newest, unauthenticated, lower, 0, 0);
      ScanAllFindsTop(listing, records);
    }

    /** What the loop collects, in terms of the stored records. */
    lemma ScanAllFindsTop(listing: seq<(nat, string)>, records: Records)
      requires NewestFirst(listing, records)
      ensures match Kept(listing)
        case Some((event, generation)) => IsTop(records, event) && generation == PolicyAt(records, event).generation
        case None => forall e :: !AuthenticAt(records, e)
      ensures forall e :: e in Unauthenticated(listing) <==> e in records && !AuthenticAt(records, e)
    {
      hide Kept, Unauthenticated;
      KeptIsTop(listing, records);
      forall e
        ensures e in Unauthenticated(listing) <==> e in records && !AuthenticAt(records, e)
      {
        UnauthenticatedAre(listing, records, e);
      }
      var kept := Kept(listing);
      forall e | AuthenticAt(records, e)
        ensures kept.Some? && AtLeast(records, kept.value.0, e)
      {
        var i :| 0 <= i < |listing| && listing[i].0 == e;
      }
    }

    method CountLower(generations: seq<nat>, top: nat) returns (lower: nat)
      ensures lower == CountBelow(generations, top)
    {
      lower := 0;
      for k := 0 to |generations|
        invariant lower == CountBelow(generations[..k], top)
      {
        assert generations[..k + 1][..k] == generations[..k];
        if generations[k] < top {
          lower := lower + 1;
        }
      }
      assert generations[..|generations|] == generations;
    }

    /** `_scan_to_mark`: newest first, down to the first record carrying the mark's policy. */
    method ScanToMark(listing: seq<(nat, string)>, mark: Mark, ghost records: Records) returns (scan: Scan)
      requires NewestFirst(listing, records)
      ensures scan.chosen.Some? ==> IsNewestCarrying(records, mark.digest, scan.chosen.value)
      ensures scan.chosen.None? ==> forall e :: !Carries(records, mark.digest, e)
      ensures scan.newest == if listing == [] then None else Some(classify(listing[0].1))
      // every record read before the chosen one is accounted for, each in its class, and no older one is read
      ensures var read := |scan.unauthenticated| + scan.belowMark + scan.otherPolicy;
        && (if scan.chosen.Some? then read < |listing| && listing[read].0 == scan.chosen.value else read == |listing|)
        && scan.unauthenticated == Unauthenticated(listing[..read])
        && scan.belowMark == CountIgnored(listing[..read], mark, true)
        && scan.otherPolicy == CountIgnored(listing[..read], mark, false)
    {
      hide NewestFirst, IsNewestCarrying, Carries;
      var unauthenticated := [];
      var below, other := 0, 0;
      var newest: Option<Selection> := None;
      for k := 0 to |listing|
        invariant newest == if k == 0 then None else Some(classify(listing[0].1))
        invariant |unauthenticated| + below + other == k
        invariant unauthenticated == Unauthenticated(listing[..k])
        invariant below == CountIgnored(listing[..k], mark, true) && other == CountIgnored(listing[..k], mark, false)
        invariant forall i | 0 <= i < k :: !Carries(records, mark.digest, listing[i].0)
      {
        var (event, text) := listing[k];
        var found := classify(text);
        CarriesListed(listing, records, mark.digest, k);
        assert listing[..k + 1][..k] == listing[..k];
        newest := if newest.Some? then newest else Some(found);
        if !Authentic(found) {
          unauthenticated := unauthenticated + [event];
        } else if found.policy.value.digest == mark.digest {
          FirstCarryingIsNewest(listing, records, mark.digest, k);
          return Scan(Some(event), newest, unauthenticated, 0, below, other);
        } else if found.policy.value.generation < mark.generation {
          below := below + 1;
        } else {
          other := other + 1;
        }
      }
      NoneCarrying(listing, records, mark.digest);
      assert listing[..|listing|] == listing;
      return Scan(None, newest, unauthenticated, 0, below, other);
    }

    lemma CarriesListed(listing: seq<(nat, string)>, records: Records, digest: string, k: nat)
      requires NewestFirst(listing, records) && k < |listing|
      ensures var found := classify(listing[k].1);
              Carries(records, digest, listing[k].0) <==> Authentic(found) && found.policy.value.digest == digest
    {
    }

    lemma FirstCarryingIsNewest(listing: seq<(nat, string)>, records: Records, digest: string, k: nat)
      requires NewestFirst(listing, records) && k < |listing| && Carries(records, digest, listing[k].0)
      requires forall i | 0 <= i < k :: !Carries(records, digest, listing[i].0)
      ensures IsNewestCarrying(records, digest, listing[k].0)
    {
    }

    lemma NoneCarrying(listing: seq<(nat, string)>, records: Records, digest: string)
      requires NewestFirst(listing, records)
      requires forall i | 0 <= i < |listing| :: !Carries(records, digest, listing[i].0)
      ensures forall e :: !Carries(records, digest, e)
    {
    }

    /** Stopping at the mark picks what reading everything would pick, when the
        mark is the policy of the top record. */
    lemma FastScanIsFullScan(records: Records, digest: string, t: nat, top: nat)
      requires DigestsBind() && IsTop(records, top) && PolicyAt(records, top).digest == digest
      ensures IsNewestCarrying(records, digest, t) <==> IsTop(records, t)
    {
      if IsTop(records, t) {
        assert AtLeast(records, t, top) && AtLeast(records, top, t);
      }
      if IsNewestCarrying(records, digest, t) {
        assert Carries(records, digest, top);
        assert AtLeast(records, top, t);
      }
    }

    // ---------- the top record ----------

    lemma {:induction false} TopAmong(records: Records, events: set<nat>) returns (t: nat)
      requires events != {} && forall e | e in events :: AuthenticAt(records, e)
      ensures t in events && forall e | e in events :: AtLeast(records, t, e)
    {
      var first :| first in events;
      if events == {first} {
        t := first;
      } else {
        var rest := TopAmong(records, events - {first});
        t := if AtLeast(records, first, rest) then first else rest;
        forall e | e in events
          ensures AtLeast(records, t, e)
        {
          assert e == first || e in events - {first};
        }
      }
    }

    lemma TopExists(records: Records, e: nat)
      requires AuthenticAt(records, e)
      ensures exists t :: IsTop(records, t)
    {
      var events := set x | x in records && AuthenticAt(records, x);
      assert e in events;
      var t := TopAmong(records, events);
      assert IsTop(records, t);
    }

    /** `stored_maximum`: the event of the top record, if any record is authentic. */
    ghost function StoredMaximum(records: Records): (top: Option<nat>)
      ensures top.Some? ==> IsTop(records, top.value)
      ensures top.None? ==> forall e :: !AuthenticAt(records, e)
    {
      if t :| IsTop(records, t) then Some(t)
      else
        assert forall e :: !AuthenticAt(records, e) by {
          forall e | AuthenticAt(records, e) ensures false { TopExists(records, e); }
        }
        None
    }

    ghost function StoredGeneration(records: Records): nat {
      var top := StoredMaximum(records);
      if top.Some? then PolicyAt(records, top.value).generation else 0
    }
  }

  /** The rows `select_record` reads and writes for one seal. */
  class SealRows {
    const host: Host
    var records: Records
    var mark: Option<Mark>
    var enrolled: bool

    constructor (host: Host, records: Records)
      ensures this.host == host && this.records == records && mark.None? && !enrolled
    {
      this.host, this.records, mark, enrolled := host, records, None, false;
    }

    /** `select_record`. `caPinned` is whether a policy CA is configured; a failed
        write of the enrollment or the mark does not decide the release. */
    method SelectRecord(listing: seq<(nat, string)>, caPinned: bool, enrolls: bool, seeds: bool)
      returns (selection: Selection, ghost basis: Basis)
      requires host.NewestFirst(listing, records)
      modifies this`mark, this`enrolled
      ensures host.Decides(records, old(mark), old(enrolled), basis)
      ensures match basis
        case Rests(e, policy) =>
          && selection == Selection(host.classify(records[e]).status, Some(policy), false)
          && enrolled == (old(enrolled) || enrolls)
          && mark == (if old(mark).None? && seeds then Some(host.MarkAt(records, e)) else old(mark))
          && (old(mark).None? && seeds ==> mark == Some(Mark(policy.generation, policy.digest, e)))
        case DeniedEverywhere =>
          && selection == Selection(if caPinned then Invalid else Unverifiable, None, true)
          && mark == old(mark) && enrolled == old(enrolled)
        case Fallback =>
          && selection == (if listing == [] then Selection(RecordMissing, None, false) else host.classify(listing[0].1))
          && mark == old(mark) && enrolled == old(enrolled)
    {
      var scan;
      if mark.None? {
        scan := host.ScanAll(listing, records);
      } else {
        scan := host.ScanToMark(listing, mark.value, records);
      }
      if scan.chosen.Some? {
        var found := host.classify(records[scan.chosen.value]);
        if enrolls {
          enrolled := true;                            // _enroll
        }
        if mark.None? && seeds {
          mark := Some(host.MarkAt(records, scan.chosen.value));   // _backfill_mark
        }
        selection := Selection(found.status, found.policy, false);
        basis := Rests(scan.chosen.value, found.policy.value);
      } else if mark.Some? || enrolled {
        selection := Selection(if caPinned then Invalid else Unverifiable, None, true);
        basis := DeniedEverywhere;
      } else {
        selection := if scan.newest.Some? then scan.newest.value else Selection(RecordMissing, None, false);
        basis := Fallback;
      }
    }
  }
}
