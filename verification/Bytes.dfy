/** Bytes, exclusive-or, little-endian integers and overwriting part of a file. */
module Bytes {

  type Byte = x: int | 0 <= x < 256

  datatype Option<+T> = None | Some(value: T)

  function Min(a: int, b: int): int { if a < b then a else b }

  function Max(a: int, b: int): int { if a < b then b else a }

  // ---------- exclusive-or ----------

  function Pow2(n: nat): (p: nat)
    ensures p > 0
  {
    if n == 0 then 1 else 2 * Pow2(n - 1)
  }

  function XorBit(a: nat, b: nat): (r: nat)
    ensures r < 2
  {
    if a % 2 == b % 2 then 0 else 1
  }

  /** Bitwise exclusive-or of two n-bit numbers, lowest bit first. */
  function XorBits(a: nat, b: nat, n: nat): (r: nat)
    requires a < Pow2(n) && b < Pow2(n)
    ensures r < Pow2(n)
  {
    if n == 0 then 0 else XorBit(a, b) + 2 * XorBits(a / 2, b / 2, n - 1)
  }

  function Xor(a: Byte, b: Byte): Byte {
    assert Pow2(8) == 256;
    XorBits(a, b, 8)
  }

  lemma HalfAndBit(bit: nat, half: nat)
    requires bit < 2
    ensures (bit + 2 * half) / 2 == half && (bit + 2 * half) % 2 == bit
  {
  }

  lemma {:induction false} XorCancelsBits(a: nat, b: nat, n: nat)
    requires a < Pow2(n) && b < Pow2(n)
    ensures XorBits(XorBits(a, b, n), b, n) == a
  {
    if n > 0 {
      var bit, half := XorBit(a, b), XorBits(a / 2, b / 2, n - 1);
      XorCancelsBits(a / 2, b / 2, n - 1);
      HalfAndBit(bit, half);
      var r := XorBits(a, b, n);
      assert r / 2 == half && XorBit(r, b) == a % 2;
      assert XorBits(r, b, n) == XorBit(r, b) + 2 * XorBits(half, b / 2, n - 1);
    }
  }

  lemma {:induction false} XorBitsCommutes(a: nat, b: nat, n: nat)
    requires a < Pow2(n) && b < Pow2(n)
    ensures XorBits(a, b, n) == XorBits(b, a, n)
  {
    if n > 0 {
      XorBitsCommutes(a / 2, b / 2, n - 1);
    }
  }

  lemma XorCancels(a: Byte, b: Byte)
    ensures Xor(Xor(a, b), b) == a
    ensures Xor(a, b) == Xor(b, a)
  {
    assert Pow2(8) == 256;
    XorCancelsBits(a, b, 8);
    XorBitsCommutes(a, b, 8);
  }

  lemma {:induction false} XorZeroBits(a: nat, n: nat)
    requires a < Pow2(n)
    ensures XorBits(a, 0, n) == a && XorBits(a, a, n) == 0
  {
    if n > 0 { XorZeroBits(a / 2, n - 1); }
  }

  /** With the cancellation law this leaves no other operation: zero changes nothing and
      a byte with itself is zero. */
  lemma XorZero(a: Byte)
    ensures Xor(a, 0) == a && Xor(a, a) == 0
  {
    assert Pow2(8) == 256;
    XorZeroBits(a, 8);
  }

  // ---------- little-endian integers (struct formats "<I" and "<Q") ----------

  function Pow256(n: nat): (p: nat)
    ensures p > 0
  {
    if n == 0 then 1 else 256 * Pow256(n - 1)
  }

  function LittleEndian(n: nat, width: nat): (s: seq<Byte>)
    ensures |s| == width
  {
    if width == 0 then [] else [n % 256] + LittleEndian(n / 256, width - 1)
  }

  function FromLittleEndian(s: seq<Byte>): nat {
    if s == [] then 0 else s[0] + 256 * FromLittleEndian(s[1..])
  }

  lemma {:induction false} LittleEndianRoundTrip(n: nat, width: nat)
    requires n < Pow256(width)
    ensures FromLittleEndian(LittleEndian(n, width)) == n
  {
    if width > 0 {
      LittleEndianRoundTrip(n / 256, width - 1);
      assert LittleEndian(n, width)[1..] == LittleEndian(n / 256, width - 1);
    }
  }

  lemma {:induction false} FromLittleEndianRoundTrip(s: seq<Byte>)
    ensures FromLittleEndian(s) < Pow256(|s|) && LittleEndian(FromLittleEndian(s), |s|) == s
  {
    if s != [] { FromLittleEndianRoundTrip(s[1..]); }
  }

  /** The lowest byte comes first. */
  lemma {:induction false} LittleEndianByte(n: nat, width: nat, i: nat)
    requires i < width
    ensures LittleEndian(n, width)[i] == n / Pow256(i) % 256
  {
    if i > 0 {
      LittleEndianByte(n / 256, width - 1, i - 1);
      DivideTwice(n, Pow256(i - 1));
    }
  }

  lemma DivideTwice(n: nat, b: nat)
    requires b > 0
    ensures n / 256 / b == n / (256 * b)
  {
    var q := n / (256 * b);
    var r := n - q * (256 * b);
    assert q * (256 * b) == 256 * (q * b);
    assert n == 256 * (q * b) + r && 0 <= r < 256 * b;
    assert n / 256 == q * b + r / 256 && r / 256 < b;
    QuotientIs(n / 256, b, q, r / 256);
  }

  lemma MultiplyMonotonic(a: nat, b: nat, factor: nat)
    requires a <= b
    ensures a * factor <= b * factor
  {
  }

  lemma StepUp(x: nat, y: nat, b: nat)
    ensures x < y ==> x * b + b <= y * b
  {
    if x < y {
      MultiplyMonotonic(x + 1, y, b);
      assert (x + 1) * b == x * b + b;
    }
  }

  lemma QuotientIs(n: nat, b: nat, q: nat, r: nat)
    requires b > 0 && n == q * b + r && r < b
    ensures n / b == q
  {
    assert n == (n / b) * b + n % b;
    StepUp(n / b, q, b);
    StepUp(q, n / b, b);
  }

  // ---------- files ----------

  /** What a file holds after writing `data` at `pos`: bytes before and after it are kept. */
  function Overwrite(file: seq<Byte>, pos: nat, data: seq<Byte>): (r: seq<Byte>)
    requires pos <= |file|
    ensures |r| == Max(|file|, pos + |data|)
    ensures r[..pos] == file[..pos]
    ensures r[pos..pos + |data|] == data
    ensures pos + |data| <= |file| ==> r[pos + |data|..] == file[pos + |data|..]
  {
    file[..pos] + data + (if pos + |data| <= |file| then file[pos + |data|..] else [])
  }

  /** Overwriting at `pos` extends whatever ended there. */
  lemma OverwriteExtends(file: seq<Byte>, from: nat, pos: nat, data: seq<Byte>)
    requires from <= pos <= |file|
    ensures Overwrite(file, pos, data)[from..pos + |data|] == file[from..pos] + data
  {
  }

  lemma FrontOfSlice(file: seq<Byte>, from: nat, mid: nat, end: nat, front: seq<Byte>, back: seq<Byte>)
    requires from <= mid <= end <= |file| && |front| == mid - from
    requires file[from..end] == front + back
    ensures file[from..mid] == front
  {
    assert file[from..mid] == file[from..end][..mid - from];
  }

  /** Appending two pieces and then overwriting the first bytes of the file. */
  lemma OverwriteFront(file: seq<Byte>, more: seq<Byte>, tail: seq<Byte>, header: seq<Byte>)
    requires |header| <= |file|
    ensures Overwrite(file + more + tail, 0, header) == header + file[|header|..] + more + tail
  {
  }

  lemma SliceOfSlice(file: seq<Byte>, from: nat, mid: nat, end: nat)
    requires from <= mid <= end <= |file|
    ensures file[from..end][..mid - from] == file[from..mid]
  {
  }
}
