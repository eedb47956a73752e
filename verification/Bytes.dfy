/** Bytes, fixed-width integers and their little-endian memory images.
    `memcpy` of a native 32-bit integer on the (little-endian) target copies these four bytes. */
module Bytes {

  type byte = b: int | 0 <= b < 256
  type u32 = n: int | 0 <= n < 0x1_0000_0000
  type i32 = n: int | -0x8000_0000 <= n < 0x8000_0000

  const TWO32: nat := 0x1_0000_0000

  /** `static_cast<uint32_t>` of a size. */
  function TruncateToU32(n: nat): (r: u32)
    ensures r <= n && (r == n <==> n < TWO32)
  {
    n % TWO32
  }

  function U32ToBytes(n: u32): (s: seq<byte>)
    ensures |s| == 4
  {
    [n % 256, n / 256 % 256, n / 65536 % 256, n / 16777216]
  }

  function BytesToU32(s: seq<byte>): u32
    requires |s| == 4
  {
    var d: seq<int> := s;
    d[0] + 256 * d[1] + 65536 * d[2] + 16777216 * d[3]
  }

  lemma U32SurvivesBytes(n: u32)
    ensures BytesToU32(U32ToBytes(n)) == n
  {
    var q1, q2 := n / 256, n / 65536;
    assert q1 / 256 == q2 && q2 / 256 == n / 16777216;
    assert n == 256 * q1 + n % 256;
    assert q1 == 256 * q2 + q1 % 256;
    assert q2 == 256 * (q2 / 256) + q2 % 256;
  }

  lemma BytesSurviveU32(s: seq<byte>)
    requires |s| == 4
    ensures U32ToBytes(BytesToU32(s)) == s
  {
    var d: seq<int> := s;
    var n, q1, q2 := BytesToU32(s), d[1] + 256 * (d[2] + 256 * d[3]), d[2] + 256 * d[3];
    assert n == 256 * q1 + d[0] && q1 == 256 * q2 + d[1];
    assert n / 256 == q1 && n % 256 == d[0];
    assert q1 / 256 == q2 && q1 % 256 == d[1];
    assert n / 65536 == q2 && n / 16777216 == d[3];
  }

  /** Two's complement image of a signed 32-bit integer. */
  function I32ToBytes(i: i32): (s: seq<byte>)
    ensures |s| == 4
  {
    U32ToBytes(if i < 0 then i + TWO32 else i)
  }

  function BytesToI32(s: seq<byte>): i32
    requires |s| == 4
  {
    var n := BytesToU32(s);
    if n >= 0x8000_0000 then n - TWO32 else n
  }

  lemma I32SurvivesBytes(i: i32)
    ensures BytesToI32(I32ToBytes(i)) == i
  {
    U32SurvivesBytes(if i < 0 then i + TWO32 else i);
  }

  lemma BytesSurviveI32(s: seq<byte>)
    requires |s| == 4
    ensures I32ToBytes(BytesToI32(s)) == s
  {
    BytesSurviveU32(s);
  }

  /** Bitwise exclusive or of two unsigned integers of any width. */
  function Xor(a: nat, b: nat): nat
    decreases a + b
  {
    if a == 0 && b == 0 then 0
    else 2 * Xor(a / 2, b / 2) + (if a % 2 == b % 2 then 0 else 1)
  }

  /** The bit of weight 2^i. */
  function Bit(n: nat, i: nat): nat {
    if i == 0 then n % 2 else Bit(n / 2, i - 1)
  }

  /** A bit of the exclusive or is set exactly when the two bits differ. */
  lemma {:induction false} XorIsBitwise(a: nat, b: nat, i: nat)
    ensures Bit(Xor(a, b), i) == if Bit(a, i) == Bit(b, i) then 0 else 1
    decreases i
  {
    var x := Xor(a, b);
    assert a == 0 && b == 0 ==> x == 0;
    assert x / 2 == Xor(a / 2, b / 2) && x % 2 == if a % 2 == b % 2 then 0 else 1;
    if i > 0 {
      XorIsBitwise(a / 2, b / 2, i - 1);
    }
  }

  lemma XorHalves(a: nat, b: nat)
    ensures Xor(a, b) == 2 * Xor(a / 2, b / 2) + (if a % 2 == b % 2 then 0 else 1)
  {
  }

  lemma {:induction false} XorZero(a: nat)
    ensures Xor(a, 0) == a
  {
    if a > 0 {
      XorZero(a / 2);
    }
  }

  function Pow2(n: nat): nat {
    if n == 0 then 1 else 2 * Pow2(n - 1)
  }

  lemma Pow2OfWord()
    ensures Pow2(32) == TWO32
  {
    assert Pow2(8) == 256;
    assert Pow2(16) == 65536;
    assert Pow2(24) == 16777216;
  }

  lemma {:induction false} XorFits(a: nat, b: nat, width: nat)
    requires a < Pow2(width) && b < Pow2(width)
    ensures Xor(a, b) < Pow2(width)
  {
    if width == 0 {
    } else {
      XorFits(a / 2, b / 2, width - 1);
    }
  }

  lemma {:induction false} XorUndoes(a: nat, b: nat)
    ensures Xor(Xor(a, b), b) == a
    decreases a + b
  {
    if a == 0 && b == 0 {
    } else {
      XorUndoes(a / 2, b / 2);
      var x := Xor(a, b);
      assert x / 2 == Xor(a / 2, b / 2);
      assert x % 2 == if a % 2 == b % 2 then 0 else 1;
    }
  }

  lemma {:induction false} XorSymmetric(a: nat, b: nat)
    ensures Xor(a, b) == Xor(b, a)
    decreases a + b
  {
    if a == 0 && b == 0 {
    } else {
      XorSymmetric(a / 2, b / 2);
    }
  }

  /** The exclusive or of two bytes is a byte. */
  function XorByte(a: byte, b: byte): byte {
    assert Pow2(8) == 256;
    XorFits(a, b, 8);
    Xor(a, b)
  }
}
