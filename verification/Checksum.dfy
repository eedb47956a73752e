/** The 32-bit FNV-1a checksum (section 2 of draft-eastlake-fnv) that closes every serialized
    template, and what it detects. */
module Checksum {
  import opened Bytes

  const FNV_OFFSET_BASIS: u32 := 2166136261
  const FNV_PRIME: u32 := 16777619
  /** The inverse of FNV_PRIME modulo 2^32. */
  const FNV_PRIME_INVERSE: u32 := 899433627

  /** `hash ^= byte` on 32 bits. */
  function Mix(hash: u32, b: byte): u32 {
    Pow2OfWord();
    XorFits(hash, b, 32);
    Xor(hash, b)
  }

  /** `hash *= FNV_PRIME` with 32-bit wrap-around. */
  function Scramble(hash: u32): u32 {
    hash * FNV_PRIME % TWO32
  }

  function Step(hash: u32, b: byte): u32 {
    Scramble(Mix(hash, b))
  }

  /** The checksum of `data` continued from `hash`. */
  function Fold(hash: u32, data: seq<byte>): u32
    decreases |data|
  {
    if data == [] then hash else Fold(Step(hash, data[0]), data[1..])
  }

  function Fnv1a(data: seq<byte>): u32 {
    Fold(FNV_OFFSET_BASIS, data)
  }

  method CalculateChecksum(data: seq<byte>) returns (hash: u32)
    ensures hash == Fnv1a(data)
  {
    hash := FNV_OFFSET_BASIS;
    for i := 0 to |data|
      invariant Fold(hash, data[i..]) == Fnv1a(data)
    {
      hash := Mix(hash, data[i]);
      hash := Scramble(hash);
      assert data[i..][1..] == data[i + 1..];
    }
  }

  lemma {:induction false} FoldConcat(hash: u32, p: seq<byte>, s: seq<byte>)
    ensures Fold(hash, p + s) == Fold(Fold(hash, p), s)
    decreases |p|
  {
    if p == [] {
      assert p + s == s;
    } else {
      assert (p + s)[1..] == p[1..] + s;
      FoldConcat(Step(hash, p[0]), p[1..], s);
    }
  }

  /** The recurrence of FNV-1a: each byte is xored into the hash before the multiplication by the prime. */
  lemma XorsBeforeMultiplying(data: seq<byte>, b: byte)
    ensures Fnv1a([]) == 2166136261
    ensures Fnv1a(data + [b]) == Xor(Fnv1a(data), b) * 16777619 % 0x1_0000_0000
  {
    FoldConcat(FNV_OFFSET_BASIS, data, [b]);
    assert [b][1..] == [];
  }

  /** The published value for the one-byte input "a". */
  lemma KnownValue()
    ensures Fnv1a([0x61]) == 0xe40c292c
  {
    hide Xor, Fnv1a;
    XorsBeforeMultiplying([], 0x61);
    assert [] + [0x61] == [0x61];
    XorOfLetter();
  }

  lemma XorOfLetter()
    ensures Xor(2166136261, 0x61) == 2166136228
  {
    hide Xor;
    XorZero(16922939);
    XorHalves(33845879, 1);
    assert Xor(33845879, 1) == 33845878;
    XorHalves(67691758, 3);
    assert Xor(67691758, 3) == 67691757;
    XorHalves(135383516, 6);
    assert Xor(135383516, 6) == 135383514;
    XorHalves(270767032, 12);
    assert Xor(270767032, 12) == 270767028;
    XorHalves(541534065, 24);
    assert Xor(541534065, 24) == 541534057;
    XorHalves(1083068130, 48);
    assert Xor(1083068130, 48) == 1083068114;
    XorHalves(2166136261, 97);
    assert Xor(2166136261, 97) == 2166136228;
  }

  lemma RemainderDropsMultiples(x: u32, z: int)
    ensures (x + z * 0x1_0000_0000) % 0x1_0000_0000 == x
  {
  }

  /** Multiplication by the odd prime can be undone modulo 2^32: the product of the prime and its
      inverse is 3513497 * 2^32 + 1. */
  lemma ScrambleUndoes(x: u32)
    ensures Scramble(x) * FNV_PRIME_INVERSE % TWO32 == x
  {
    var r, q := x * 16777619 % 0x1_0000_0000, x * 16777619 / 0x1_0000_0000;
    assert r == x * 16777619 - q * 0x1_0000_0000;
    var z := x * 3513497 - q * 899433627;
    assert r * 899433627 == x + z * 0x1_0000_0000;
    RemainderDropsMultiples(x, z);
  }

  /** For a fixed byte, one step is injective in the hash. */
  lemma StepInjectiveInHash(g: u32, h: u32, b: byte)
    ensures Step(g, b) == Step(h, b) <==> g == h
  {
    ScrambleUndoes(Mix(g, b));
    ScrambleUndoes(Mix(h, b));
    XorUndoes(g, b);
    XorUndoes(h, b);
  }

  /** For a fixed hash, one step is injective in the byte. */
  lemma StepInjectiveInByte(h: u32, a: byte, b: byte)
    ensures Step(h, a) == Step(h, b) <==> a == b
  {
    ScrambleUndoes(Mix(h, a));
    ScrambleUndoes(Mix(h, b));
    XorSymmetric(h, a);
    XorSymmetric(h, b);
    XorUndoes(a, h);
    XorUndoes(b, h);
  }

  lemma {:induction false} FoldInjectiveInHash(g: u32, h: u32, data: seq<byte>)
    ensures Fold(g, data) == Fold(h, data) <==> g == h
    decreases |data|
  {
    if data == [] {
    } else {
      StepInjectiveInHash(g, h, data[0]);
      FoldInjectiveInHash(Step(g, data[0]), Step(h, data[0]), data[1..]);
    }
  }

  /** A common tail neither hides nor creates a difference. */
  lemma CommonTailPreservesCollisions(p: seq<byte>, q: seq<byte>, tail: seq<byte>)
    ensures Fnv1a(p + tail) == Fnv1a(q + tail) <==> Fnv1a(p) == Fnv1a(q)
  {
    FoldConcat(FNV_OFFSET_BASIS, p, tail);
    FoldConcat(FNV_OFFSET_BASIS, q, tail);
    FoldInjectiveInHash(Fnv1a(p), Fnv1a(q), tail);
  }

  /** Every single-byte change is detected, in inputs of any length. */
  lemma DetectsSingleByteChange(a: seq<byte>, i: nat, b: byte)
    requires i < |a|
    ensures Fnv1a(a[i := b]) == Fnv1a(a) <==> b == a[i]
  {
    var changed := a[i := b];
    assert a == (a[..i] + [a[i]]) + a[i + 1..];
    assert changed == (a[..i] + [b]) + a[i + 1..];
    CommonTailPreservesCollisions(a[..i] + [a[i]], a[..i] + [b], a[i + 1..]);
    var h := Fnv1a(a[..i]);
    FoldConcat(FNV_OFFSET_BASIS, a[..i], [a[i]]);
    FoldConcat(FNV_OFFSET_BASIS, a[..i], [b]);
    assert Fold(h, [a[i]]) == Step(h, a[i]);
    assert Fold(h, [b]) == Step(h, b);
    StepInjectiveInByte(h, a[i], b);
  }
}
