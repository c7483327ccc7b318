/** Octets, big- and little-endian integers and exclusive-or, as the wire formats use them. */
module Bytes {

  type byte = b: int | 0 <= b < 256

  type bytes = seq<byte>

  type digest = s: bytes | |s| == 32 witness seq(32, _ => 0)

  /** A hash function; nothing is asked of it but its length. */
  type Sha256 = bytes -> digest

  const U64_MAX: nat := 0xFFFF_FFFF_FFFF_FFFF

  function Min(a: nat, b: nat): (m: nat) {
    if a <= b then a else b
  }

  /** `u16::from_be_bytes`. */
  function U16(s: bytes): (n: nat)
    requires |s| == 2
    ensures n < 0x1_0000
  {
    0x100 * (s[0] as nat) + s[1]
  }

  /** `(n as u16).to_be_bytes()`: the cast keeps the low sixteen bits. */
  function PutU16(n: nat): (s: bytes)
    ensures |s| == 2
    ensures n < 0x1_0000 ==> U16([s[0], s[1]]) == n
  {
    [(n / 0x100) % 0x100, n % 0x100]
  }

  /** `u32::from_be_bytes`. */
  function U32(s: bytes): (n: nat)
    requires |s| == 4
  {
    0x1_0000 * U16([s[0], s[1]]) + U16([s[2], s[3]])
  }

  /** The low `width` bytes of a number, most significant first. */
  function PutBytes(width: nat, n: nat): (s: bytes)
    ensures |s| == width
  {
    if width == 0 then [] else PutBytes(width - 1, n / 0x100) + [n % 0x100]
  }

  /** The number that bytes spell, most significant first. */
  function FromBytes(s: bytes): (n: nat) {
    if s == [] then 0 else 0x100 * FromBytes(s[..|s| - 1]) + s[|s| - 1]
  }

  function Pow256(width: nat): (p: nat)
    ensures p > 0
  {
    if width == 0 then 1 else 0x100 * Pow256(width - 1)
  }

  lemma {:induction false} PutBytesReads(width: nat, n: nat)
    requires n < Pow256(width)
    ensures FromBytes(PutBytes(width, n)) == n
  {
    if width > 0 {
      PutBytesReads(width - 1, n / 0x100);
      var s := PutBytes(width, n);
      assert s[..width - 1] == PutBytes(width - 1, n / 0x100);
    }
  }

  lemma Pow256Of8()
    ensures Pow256(8) == U64_MAX + 1
  {
    assert Pow256(2) == 0x1_0000 && Pow256(4) == 0x1_0000_0000 && Pow256(6) == 0x1_0000_0000_0000;
  }

  function PutU32(n: nat): (s: bytes)
    ensures |s| == 4
  {
    PutBytes(4, n)
  }

  lemma U16Unique(a: byte, b: byte)
    ensures PutU16(U16([a, b])) == [a, b]
  {
  }

  lemma PutOneMore(width: nat, n: nat, last: byte)
    ensures PutBytes(width + 1, 0x100 * n + last) == PutBytes(width, n) + [last]
  {
    assert (0x100 * n + last) / 0x100 == n && (0x100 * n + last) % 0x100 == last;
  }

  lemma U32Digits(a: byte, b: byte, c: byte, d: byte)
    ensures U32([a, b, c, d]) == 0x100 * (0x100 * (0x100 * (a as nat) + b) + c) + d
  {
  }

  lemma U32Unique(a: byte, b: byte, c: byte, d: byte)
    ensures PutU32(U32([a, b, c, d])) == [a, b, c, d]
  {
    hide PutBytes, U32;
    var x := 0x100 * (a as nat) + b;
    var y := 0x100 * x + c;
    U32Digits(a, b, c, d);
    PutOneMore(3, y, d);
    PutOneMore(2, x, c);
    PutOneMore(1, a, b);
    PutOneMore(0, 0, a);
  }

  lemma PutU32Reads(n: nat)
    requires n < 0x1_0000_0000
    ensures var s := PutU32(n); U32([s[0], s[1], s[2], s[3]]) == n
  {
    hide PutU32, U32;
    var y := n / 0x100;
    var x := y / 0x100;
    var a := x / 0x100;
    U32Digits(a, x % 0x100, y % 0x100, n % 0x100);
    U32Unique(a, x % 0x100, y % 0x100, n % 0x100);
  }

  lemma U32Fits(a: byte, b: byte, c: byte, d: byte)
    ensures U32([a, b, c, d]) < 0x1_0000_0000
  {
    hide U16;
    assert U32([a, b, c, d]) == 0x1_0000 * U16([a, b]) + U16([c, d]);
  }

  /** Exclusive-or of the low `width` bits of two numbers, lowest bit first. */
  function XorBits(width: nat, a: nat, b: nat): (c: nat) {
    if width == 0 then 0
    else (if a % 2 == b % 2 then 0 else 1) + 2 * XorBits(width - 1, a / 2, b / 2)
  }

  function Pow2(width: nat): (p: nat)
    ensures p > 0
  {
    if width == 0 then 1 else 2 * Pow2(width - 1)
  }

  lemma {:induction false} XorBitsFits(width: nat, a: nat, b: nat)
    ensures XorBits(width, a, b) < Pow2(width)
  {
    if width > 0 {
      XorBitsFits(width - 1, a / 2, b / 2);
    }
  }

  lemma LowBit(bit: nat, high: nat)
    requires bit < 2
    ensures (bit + 2 * high) % 2 == bit && (bit + 2 * high) / 2 == high
  {
  }

  lemma {:induction false} XorBitsCancels(width: nat, a: nat, b: nat)
    requires a < Pow2(width)
    ensures XorBits(width, XorBits(width, a, b), b) == a
  {
    if width > 0 {
      var high := XorBits(width - 1, a / 2, b / 2);
      XorBitsCancels(width - 1, a / 2, b / 2);
      LowBit(if a % 2 == b % 2 then 0 else 1, high);
    }
  }

  lemma {:induction false} XorBitsCommutes(width: nat, a: nat, b: nat)
    ensures XorBits(width, a, b) == XorBits(width, b, a)
  {
    if width > 0 {
      XorBitsCommutes(width - 1, a / 2, b / 2);
    }
  }

  lemma {:induction false} XorBitsIsZero(width: nat, a: nat, b: nat)
    requires a < Pow2(width) && b < Pow2(width)
    ensures XorBits(width, a, b) == 0 <==> a == b
  {
    if width > 0 {
      XorBitsIsZero(width - 1, a / 2, b / 2);
    }
  }

  lemma ByteWidth()
    ensures Pow2(8) == 256
  {
    assert Pow2(4) == 16;
  }

  function Xor(a: byte, b: byte): (c: byte) {
    ByteWidth();
    XorBitsFits(8, a, b);
    XorBits(8, a, b)
  }

  lemma XorCancels(a: byte, b: byte)
    ensures Xor(Xor(a, b), b) == a
  {
    ByteWidth();
    XorBitsCancels(8, a, b);
  }

  lemma XorCommutes(a: byte, b: byte)
    ensures Xor(a, b) == Xor(b, a)
  {
    XorBitsCommutes(8, a, b);
  }

  /** The difference of two bytes is zero exactly when they are equal. */
  lemma XorIsZero(a: byte, b: byte)
    ensures Xor(a, b) == 0 <==> a == b
  {
    ByteWidth();
    XorBitsIsZero(8, a, b);
  }

  // ---------------------------------------------------------------- sequences of byte strings

  function Concat(log: seq<bytes>): (s: bytes) {
    if log == [] then [] else log[0] + Concat(log[1..])
  }

  lemma Regroup(a: bytes, b: bytes, c: bytes)
    ensures a + b + c == a + (b + c) && [] + a == a && a + [] == a
  {
  }

  /** A part of a concatenation stands where it should. */
  lemma Part(a: bytes, b: bytes, c: bytes)
    ensures (a + b + c)[|a|..|a| + |b|] == b && |a + b + c| == |a| + |b| + |c|
    ensures forall i :: 0 <= i < |b| ==> (a + b + c)[|a| + i] == b[i]
  {
  }

  predicate Prefix(s: bytes, t: bytes) {
    |s| <= |t| && s == t[..|s|]
  }

  lemma ConcatNone()
    ensures Concat([]) == []
  {
  }

  lemma PrefixExtends(s: bytes, t: bytes, more: bytes)
    requires Prefix(s, t)
    ensures Prefix(s, t + more)
  {
    assert (t + more)[..|s|] == t[..|s|];
  }

  lemma {:induction false} ConcatAppend(log: seq<bytes>, p: bytes)
    ensures Concat(log + [p]) == Concat(log) + p
  {
    if log == [] {
      assert log + [p] == [p] && Concat([p]) == p + Concat([]);
    } else {
      assert (log + [p])[1..] == log[1..] + [p];
      ConcatAppend(log[1..], p);
    }
  }

  lemma {:induction false} ConcatSplit(log: seq<bytes>, k: nat)
    requires k <= |log|
    ensures Concat(log) == Concat(log[..k]) + Concat(log[k..])
  {
    if k == 0 {
      assert log[k..] == log;
    } else {
      ConcatSplit(log[1..], k - 1);
      assert log[..k][1..] == log[1..][..k - 1] && log[1..][k - 1..] == log[k..];
    }
  }
}
