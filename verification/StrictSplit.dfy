/**
 * Strict-mode key splitting K = R xor X: share 1 carries the pad R, shares 2 to 4 the
 * complement X. Reading the decimal prefix of a share is a parameter.
 */
module StrictSplit {
  import opened Bytes
  import opened Text

  const KEY_BYTES: nat := 32

  type Payload = seq<Byte>

  // ---------- hexadecimal texts ----------

  function HexDigit(d: nat): char
    requires d < 16
  {
    "0123456789abcdef"[d]
  }

  /** `bytes.hex`: two lower-case digits per byte. */
  function Hex(bytes: Payload): (s: string)
    ensures |s| == 2 * |bytes|
  {
    if bytes == [] then "" else [HexDigit(bytes[0] / 16), HexDigit(bytes[0] % 16)] + Hex(bytes[1..])
  }

  function DigitValue(c: char): (d: Option<nat>)
    ensures d.Some? ==> d.value < 16
  {
    if '0' <= c <= '9' then Some(c as int - '0' as int)
    else if 'a' <= c <= 'f' then Some(c as int - 'a' as int + 10)
    else if 'A' <= c <= 'F' then Some(c as int - 'A' as int + 10)
    else None
  }

  predicate IsBlank(c: char) {
    c == ' ' || '\t' <= c <= '\r'
  }

  /** `bytes.fromhex`: digits of either case, blanks allowed between two bytes. */
  function FromHex(s: string): Option<Payload> {
    if s == "" then Some([])
    else if IsBlank(s[0]) then FromHex(s[1..])
    else if |s| < 2 || DigitValue(s[0]).None? || DigitValue(s[1]).None? then None
    else
      var rest := FromHex(s[2..]);
      if rest.None? then None
      else Some([16 * DigitValue(s[0]).value + DigitValue(s[1]).value] + rest.value)
  }

  /** A digit is read in either case, nothing else is one. */
  lemma DigitMeans(c: char, d: nat)
    requires d < 16
    ensures DigitValue(c) == Some(d) <==> c == "0123456789abcdef"[d] || c == "0123456789ABCDEF"[d]
  {
  }

  /** Bytes are read in either case, with blanks between them but not within; anything else is refused. */
  lemma FromHexMeans(a: char, b: char, rest: string)
    ensures a as int in {9, 10, 11, 12, 13, 32} ==> FromHex([a] + rest) == FromHex(rest)
    ensures a as int !in {9, 10, 11, 12, 13, 32} ==>
      && FromHex([a]) == None
      && if DigitValue(a).Some? && DigitValue(b).Some? && FromHex(rest).Some?
         then FromHex([a, b] + rest) == Some([16 * DigitValue(a).value + DigitValue(b).value] + FromHex(rest).value)
         else FromHex([a, b] + rest) == None
  {
    assert ([a] + rest)[1..] == rest && ([a, b] + rest)[2..] == rest;
  }

  lemma {:induction false} NoDash(bytes: Payload)
    ensures forall i | 0 <= i < |Hex(bytes)| :: Hex(bytes)[i] != '-'
  {
    if bytes != [] {
      NoDash(bytes[1..]);
      DigitRoundTrip(bytes[0] / 16);
      DigitRoundTrip(bytes[0] % 16);
    }
  }

  lemma {:induction false} HexRoundTrip(bytes: Payload)
    ensures FromHex(Hex(bytes)) == Some(bytes)
    ensures forall i | 0 <= i < |Hex(bytes)| :: Hex(bytes)[i] != '-'
  {
    NoDash(bytes);
    if bytes != [] {
      HexRoundTrip(bytes[1..]);
      var hi, lo := bytes[0] / 16, bytes[0] % 16;
      DigitRoundTrip(hi);
      DigitRoundTrip(lo);
      TwoDigitsFirst([HexDigit(hi), HexDigit(lo)] + Hex(bytes[1..]), hi, lo);
      assert bytes == [bytes[0]] + bytes[1..];
    }
  }

  /** A text that starts with the digits of a byte. */
  lemma TwoDigitsFirst(s: string, hi: nat, lo: nat)
    requires hi < 16 && lo < 16 && |s| >= 2 && s[0] == HexDigit(hi) && s[1] == HexDigit(lo) && FromHex(s[2..]).Some?
    ensures FromHex(s) == Some([16 * hi + lo] + FromHex(s[2..]).value)
  {
    DigitRoundTrip(hi);
    DigitRoundTrip(lo);
    hide DigitValue, HexDigit, IsBlank;
  }

  lemma DigitRoundTrip(d: nat)
    requires d < 16
    ensures DigitValue(HexDigit(d)) == Some(d) && HexDigit(d) != '-' && !IsBlank(HexDigit(d))
  {
  }

  // ---------- shares ----------

  /** Exclusive-or of two byte strings, as long as the shorter one. */
  function XorBytes(a: Payload, b: Payload): (r: Payload)
    ensures |r| == Min(|a|, |b|)
    ensures forall i | 0 <= i < |r| :: r[i] == Xor(a[i], b[i])
  {
    seq(Min(|a|, |b|), i requires 0 <= i < Min(|a|, |b|) => Xor(a[i], b[i]))
  }

  /** What leaves no other operation: a zero key gives the pad as complement, a key equal to
      its pad zeros. */
  lemma XorBytesOfZero(a: Payload, zeros: Payload)
    requires |a| == |zeros| && forall i | 0 <= i < |zeros| :: zeros[i] == 0
    ensures XorBytes(zeros, a) == a && XorBytes(a, zeros) == a && XorBytes(a, a) == zeros
  {
    forall i | 0 <= i < |a| ensures Xor(zeros[i], a[i]) == a[i] == Xor(a[i], zeros[i]) && Xor(a[i], a[i]) == zeros[i] {
      XorZero(a[i]);
      XorCancels(zeros[i], a[i]);
    }
  }

  lemma XorBytesCancels(a: Payload, b: Payload)
    requires |a| == |b|
    ensures XorBytes(XorBytes(a, b), b) == a && XorBytes(b, XorBytes(a, b)) == a
  {
    forall i | 0 <= i < |a| ensures Xor(Xor(a[i], b[i]), b[i]) == a[i] == Xor(b[i], Xor(a[i], b[i])) {
      XorCancels(a[i], b[i]);
      XorCancels(b[i], Xor(a[i], b[i]));
    }
  }

  function Share(index: nat, payload: Payload): string
    requires 1 <= index <= 4
  {
    [Digit(index)] + "-" + Hex(payload)
  }

  /** The four shares of a key under a pad. */
  function Shares(key: Payload, pad: Payload): (shares: seq<string>)
    ensures |shares| == 4
  {
    var x := XorBytes(key, pad);
    [Share(1, pad), Share(2, x), Share(3, x), Share(4, x)]
  }

  datatype Parsed = Parsed(index: int, payload: Payload)

  /** Python's `int` on the text before the dash; None where it raises. */
  datatype Reader = Reader(index: string -> Option<int>) {

    ghost predicate Lawful() {
      forall d: nat | 1 <= d <= 4 :: index([Digit(d)]) == Some(d)
    }

    /** `_parse_share`; None where it raises. */
    function Parse(share: string): (r: Option<Parsed>)
      ensures r.Some? ==> 1 <= r.value.index <= 4 && |r.value.payload| == KEY_BYTES
    {
      var dash := DashAt(share);
      if dash == |share| then None
      else
        var i, payload := index(share[..dash]), FromHex(share[dash + 1..]);
        if i.None? || !(1 <= i.value <= 4) || payload.None? || |payload.value| != KEY_BYTES then None
        else Some(Parsed(i.value, payload.value))
    }

    /** Parsing undoes printing. */
    lemma ParseRoundTrip(i: nat, payload: Payload)
      requires Lawful() && 1 <= i <= 4 && |payload| == KEY_BYTES
      ensures Parse(Share(i, payload)) == Some(Parsed(i, payload))
    {
      var share := Share(i, payload);
      HexRoundTrip(payload);
      assert share[0] == Digit(i) && Digit(i) != '-' && share[1] == '-';
      assert DashAt(share) == 1;
      assert share[..1] == [Digit(i)] && share[2..] == Hex(payload);
    }

    predicate AllParse(shares: seq<string>) {
      forall i | 0 <= i < |shares| :: Parse(shares[i]).Some?
    }

    /** The payload of the last share with this index. */
    function Last(shares: seq<string>, i: int): (r: Option<Payload>)
      requires AllParse(shares)
      ensures r.None? <==> forall k | 0 <= k < |shares| :: Parse(shares[k]).value.index != i
      ensures r.Some? ==> exists k | 0 <= k < |shares| :: Parse(shares[k]).value == Parsed(i, r.value)
    {
      if shares == [] then None
      else
        var last := Parse(shares[|shares| - 1]).value;
        if last.index == i then Some(last.payload) else Last(shares[..|shares| - 1], i)
    }

    /** Every owner share carries the same payload. */
    ghost predicate OwnersAgree(shares: seq<string>)
      requires AllParse(shares)
    {
      forall k | 0 <= k < |shares| && Parse(shares[k]).value.index == 1 ::
        Last(shares, 1) == Some(Parse(shares[k]).value.payload)
    }

    /** The shares determine `key`: every share parses, all owner shares agree, and the
        last share of each channel present gives the same key with the owner's. */
    ghost predicate Recovers(shares: seq<string>, key: Payload) {
      && |shares| >= 2 && AllParse(shares) && OwnersAgree(shares)
      && Last(shares, 1).Some?
      && (exists c: int | 2 <= c <= 4 :: Last(shares, c).Some?)
      && (forall c: int | 2 <= c <= 4 && Last(shares, c).Some? ::
            XorBytes(Last(shares, 1).value, Last(shares, c).value) == key)
    }

    lemma OneMore(front: seq<string>, share: string, c: int)
      requires AllParse(front) && Parse(share).Some?
      ensures AllParse(front + [share])
      ensures var last := Parse(share).value;
        Last(front + [share], c) == if last.index == c then Some(last.payload) else Last(front, c)
    {
      hide Parse;
      var longer := front + [share];
      assert longer[..|front|] == front;
    }

    /** The owner shares still agree: the new one, if it is one, repeats the pad. */
    lemma StillAgree(front: seq<string>, share: string)
      requires AllParse(front) && Parse(share).Some? && OwnersAgree(front)
      requires Parse(share).value.index == 1 && Last(front, 1).Some? ==> Parse(share).value.payload == Last(front, 1).value
      ensures AllParse(front + [share]) && OwnersAgree(front + [share])
    {
    }

    /** `recover_key_strict`; None where it raises. */
    method RecoverKeyStrict(shares: seq<string>) returns (key: Option<Payload>)
      ensures key.Some? ==> Recovers(shares, key.value)
      ensures key.None? ==> forall k: Payload :: !Recovers(shares, k)
    {
      hide Parse, Last, OwnersAgree;
      if |shares| < 2 { return None; }
      var pad: Option<Payload> := None;
      var complements: map<int, Payload> := map[];
      var n := 0;
      ghost var channel := 2;
      EmptyAgrees();
      while n < |shares|
        invariant 0 <= n <= |shares| && AllParse(shares[..n])
        invariant OwnersAgree(shares[..n])
        invariant pad == Last(shares[..n], 1)
        invariant complements == map[] || channel in complements
        invariant forall c: int | c != 1 :: c in complements <==> Last(shares[..n], c).Some?
        invariant forall c: int | c in complements :: 2 <= c <= 4 && Last(shares[..n], c) == Some(complements[c])
      {
        var parsed := Parse(shares[n]);
        if parsed.None? { return None; }
        var i, payload := parsed.value.index, parsed.value.payload;
        assert shares[..n + 1] == shares[..n] + [shares[n]];
        forall c: int { OneMore(shares[..n], shares[n], c); }
        if i == 1 {
          if pad.Some? && payload != pad.value {
            OwnerConflict(shares, n);
            return None;
          }
          pad := Some(payload);
        } else {
          complements := complements[i := payload];
          channel := i;
        }
        StillAgree(shares[..n], shares[n]);
        n := n + 1;
      }
      assert shares[..n] == shares;
      if pad.None? || complements == map[] { return None; }
      key := Unanimous(pad.value, complements);
      if key.None? {
        forall k: Payload ensures !Recovers(shares, k) {
          Disagreement(pad.value, complements, shares, k);
        }
      }
    }

    lemma EmptyAgrees()
      ensures AllParse([]) && OwnersAgree([]) && forall c: int :: Last([], c) == None
    {
    }

    lemma OwnerConflict(shares: seq<string>, n: nat)
      requires n < |shares| && AllParse(shares[..n]) && Parse(shares[n]).Some? && Parse(shares[n]).value.index == 1
      requires Last(shares[..n], 1).Some? && Last(shares[..n], 1).value != Parse(shares[n]).value.payload
      ensures AllParse(shares) ==> !OwnersAgree(shares)
    {
    }

    lemma Disagreement(pad: Payload, complements: map<int, Payload>, shares: seq<string>, k: Payload)
      requires AllParse(shares) && Last(shares, 1) == Some(pad)
      requires forall c: int | c in complements :: 2 <= c <= 4 && Last(shares, c) == Some(complements[c])
      requires exists c, d :: c in complements && d in complements && complements[c] != complements[d]
      ensures !Recovers(shares, k)
    {
      var c, d :| c in complements && d in complements && complements[c] != complements[d];
      LastIsWhole(shares, 1);
      LastIsWhole(shares, c);
      LastIsWhole(shares, d);
      hide Last, OwnersAgree, Parse;
      if Recovers(shares, k) {
        XorBytesInjective(pad, complements[c], complements[d]);
      }
    }

    lemma LastIsWhole(shares: seq<string>, i: int)
      requires AllParse(shares) && Last(shares, i).Some?
      ensures |Last(shares, i).value| == KEY_BYTES
    {
    }

    /** The last step: one payload among the channels, or a refusal. */
    method Unanimous(pad: Payload, complements: map<int, Payload>) returns (key: Option<Payload>)
      requires exists c :: c in complements
      ensures key.Some? ==> forall c | c in complements :: XorBytes(pad, complements[c]) == key.value
      ensures key.None? ==> exists c, d :: c in complements && d in complements && complements[c] != complements[d]
    {
      var unique := set c | c in complements :: complements[c];
      var c :| c in complements;
      var complement := complements[c];
      assert complement in unique;
      if unique == {complement} {
        assert forall d | d in complements :: complements[d] in unique;
        return Some(XorBytes(pad, complement));
      }
      ghost var other :| other in unique && other != complement;
      return None;
    }

    // ---------- what genuine shares recover ----------

    /** Shares of one split, in any order and with repeats. */
    ghost predicate Genuine(shares: seq<string>, key: Payload, pad: Payload) {
      forall i | 0 <= i < |shares| :: shares[i] in Shares(key, pad)
    }

    predicate HasOwner(shares: seq<string>, key: Payload, pad: Payload) {
      Shares(key, pad)[0] in shares
    }

    predicate HasChannel(shares: seq<string>, key: Payload, pad: Payload) {
      Shares(key, pad)[1] in shares || Shares(key, pad)[2] in shares || Shares(key, pad)[3] in shares
    }

    lemma GenuineParse(key: Payload, pad: Payload, share: string) returns (i: nat)
      requires Lawful() && |key| == |pad| == KEY_BYTES && share in Shares(key, pad)
      ensures 1 <= i <= 4 && share == Shares(key, pad)[i - 1]
      ensures Parse(share) == Some(Parsed(i, if i == 1 then pad else XorBytes(key, pad)))
    {
      var k :| 0 <= k < 4 && share == Shares(key, pad)[k];
      i := k + 1;
      ParseRoundTrip(i, if i == 1 then pad else XorBytes(key, pad));
    }

    /** Every genuine share parses, and those of one index agree. */
    lemma GenuineAgree(shares: seq<string>, key: Payload, pad: Payload)
      requires Lawful() && |key| == |pad| == KEY_BYTES && Genuine(shares, key, pad)
      ensures AllParse(shares) && OwnersAgree(shares)
    {
      hide Parse;
      forall k | 0 <= k < |shares|
        ensures Parse(shares[k]).Some?
        ensures Parse(shares[k]).value.payload == if Parse(shares[k]).value.index == 1 then pad else XorBytes(key, pad)
      {
        var i := GenuineParse(key, pad, shares[k]);
      }
    }

    /** Genuine shares recover the key exactly when the owner's and some channel's are
        among them; what they recover is the key. */
    lemma GenuineRecoverExactly(shares: seq<string>, key: Payload, pad: Payload, result: Payload)
      requires Lawful() && |key| == |pad| == KEY_BYTES && Genuine(shares, key, pad)
      ensures Recovers(shares, result) <==>
        result == key && HasOwner(shares, key, pad) && HasChannel(shares, key, pad)
    {
      GenuineAgree(shares, key, pad);
      hide Parse, Last, OwnersAgree, Shares, AllParse, XorBytes, Genuine;
      XorBytesCancels(key, pad);
      XorBytesCommutes(pad, XorBytes(key, pad));
      GenuineLast(shares, key, pad);
      assert HasOwner(shares, key, pad) <==> Last(shares, 1).Some?;
      assert HasChannel(shares, key, pad) <==> exists c: int | 2 <= c <= 4 :: Last(shares, c).Some? by {
        hide Recovers;
        assert HasChannel(shares, key, pad) <==> Last(shares, 2).Some? || Last(shares, 3).Some? || Last(shares, 4).Some?;
      }
      if HasOwner(shares, key, pad) && HasChannel(shares, key, pad) { TwoOfThem(shares, key, pad); }
    }

    /** A genuine share carries index `i` exactly when it is the i-th share of the split. */
    lemma GenuineIndex(key: Payload, pad: Payload, share: string, i: nat)
      requires Lawful() && |key| == |pad| == KEY_BYTES && share in Shares(key, pad) && 1 <= i <= 4
      ensures Parse(share).Some?
      ensures Parse(share).value.index == i <==> share == Shares(key, pad)[i - 1]
      ensures Parse(share).value.index == i ==> Parse(share).value.payload == if i == 1 then pad else XorBytes(key, pad)
    {
      hide Parse, Shares, Hex, XorBytes, Share, Lawful;
      var j := GenuineParse(key, pad, share);
      ParseRoundTrip(i, if i == 1 then pad else XorBytes(key, pad));
      ShareAt(key, pad, i);
    }

    lemma ShareAt(key: Payload, pad: Payload, i: nat)
      requires 1 <= i <= 4
      ensures Shares(key, pad)[i - 1] == Share(i, if i == 1 then pad else XorBytes(key, pad))
    {
      hide Hex, XorBytes, Share;
    }

    lemma GenuineLastOf(shares: seq<string>, key: Payload, pad: Payload, i: nat)
      requires Lawful() && |key| == |pad| == KEY_BYTES && Genuine(shares, key, pad) && AllParse(shares) && 1 <= i <= 4
      ensures Last(shares, i).Some? <==> Shares(key, pad)[i - 1] in shares
      ensures Last(shares, i).Some? ==> Last(shares, i).value == if i == 1 then pad else XorBytes(key, pad)
    {
      hide Parse, Last, Shares;
      forall k | 0 <= k < |shares|
        ensures Parse(shares[k]).value.index == i <==> shares[k] == Shares(key, pad)[i - 1]
        ensures Parse(shares[k]).value.index == i ==>
          Parse(shares[k]).value.payload == if i == 1 then pad else XorBytes(key, pad)
      {
        GenuineIndex(key, pad, shares[k], i);
      }
    }

    lemma GenuineLast(shares: seq<string>, key: Payload, pad: Payload)
      requires Lawful() && |key| == |pad| == KEY_BYTES && Genuine(shares, key, pad) && AllParse(shares)
      ensures forall i: int | 1 <= i <= 4 :: Last(shares, i).Some? <==> Shares(key, pad)[i - 1] in shares
      ensures forall i: int | 1 <= i <= 4 && Last(shares, i).Some? ::
        Last(shares, i).value == if i == 1 then pad else XorBytes(key, pad)
    {
      hide *;
      forall i: int | 1 <= i <= 4
        ensures Last(shares, i).Some? <==> Shares(key, pad)[i - 1] in shares
        ensures Last(shares, i).Some? ==> Last(shares, i).value == if i == 1 then pad else XorBytes(key, pad)
      {
        GenuineLastOf(shares, key, pad, i);
      }
    }

    lemma TwoOfThem(shares: seq<string>, key: Payload, pad: Payload)
      requires HasOwner(shares, key, pad) && HasChannel(shares, key, pad)
      ensures |shares| >= 2
    {
      hide Hex, XorBytes;
      var split := Shares(key, pad);
      assert split[0][0] == '1' && split[1][0] == '2' && split[2][0] == '3' && split[3][0] == '4';
    }
  }

  lemma XorBytesInjective(pad: Payload, a: Payload, b: Payload)
    requires |pad| == |a| == |b| && XorBytes(pad, a) == XorBytes(pad, b)
    ensures a == b
  {
    XorBytesCommutes(pad, a);
    XorBytesCommutes(pad, b);
    XorBytesCancels(a, pad);
    XorBytesCancels(b, pad);
  }

  lemma XorBytesCommutes(a: Payload, b: Payload)
    ensures XorBytes(a, b) == XorBytes(b, a)
  {
    forall i | 0 <= i < Min(|a|, |b|) ensures Xor(a[i], b[i]) == Xor(b[i], a[i]) {
      XorCancels(a[i], b[i]);
    }
  }

  /** For every key and complement exactly one pad gives that complement. */
  lemma OnePadPerComplement(key: Payload, x: Payload, pad: Payload)
    requires |key| == |x| == |pad|
    ensures XorBytes(key, pad) == x <==> pad == XorBytes(key, x)
  {
    XorBytesCommutes(key, pad);
    XorBytesCancels(pad, key);
    XorBytesCommutes(key, XorBytes(pad, key));
    XorBytesCommutes(key, x);
    XorBytesCancels(x, key);
    XorBytesCommutes(key, XorBytes(x, key));
  }

  /** The three channel shares fix nothing about the key: under any other key of the
      same length exactly one pad gives the very same three shares. */
  lemma ChannelsFixNothing(key: Payload, pad: Payload, other: Payload)
    requires |key| == |pad| == |other| == KEY_BYTES
    ensures var pad' := XorBytes(other, XorBytes(key, pad));
      && |pad'| == KEY_BYTES && Shares(other, pad')[1..] == Shares(key, pad)[1..]
      && forall p: Payload | |p| == KEY_BYTES && Shares(other, p)[1..] == Shares(key, pad)[1..] :: p == pad'
  {
    var x := XorBytes(key, pad);
    OnePadPerComplement(other, x, XorBytes(other, x));
    forall p: Payload | |p| == KEY_BYTES && Shares(other, p)[1..] == Shares(key, pad)[1..]
      ensures p == XorBytes(other, x)
    {
      assert Shares(other, p)[1..][0] == Share(2, XorBytes(other, p));
      assert Shares(key, pad)[1..][0] == Share(2, x);
      assert Share(2, XorBytes(other, p))[2..] == Hex(XorBytes(other, p)) && Share(2, x)[2..] == Hex(x);
      HexRoundTrip(XorBytes(other, p));
      HexRoundTrip(x);
      OnePadPerComplement(other, x, p);
    }
  }

  /** `split_key_strict` on a parsed key: the pad is random, and the split is refused
      unless shares 1 and 2 recover the key. They always do. */
  method SplitKeyStrict(reader: Reader, key: Payload, random: Payload) returns (shares: Option<seq<string>>)
    requires reader.Lawful() && |key| == |random| == KEY_BYTES
    ensures shares == Some(Shares(key, random))
  {
    var split := Shares(key, random);
    var check := [split[0], split[1]];
    var recovered := reader.RecoverKeyStrict(check);
    assert reader.Genuine(check, key, random);
    assert check[0] == split[0] && check[1] == split[1];
    if recovered.Some? {
      reader.GenuineRecoverExactly(check, key, random, recovered.value);
    } else {
      reader.GenuineRecoverExactly(check, key, random, key);
    }
    if recovered != Some(key) { return None; }
    return Some(split);
  }
}
