/** Octets as numbers, their exclusive-or, and big-endian and little-endian encodings (util/sysendian.h). */
module Octets {
  import opened Gf2
  import opened Words

  type Octet = v: nat | v < 256

  function Xor8(a: Octet, b: Octet): Octet {
    OctetBound(Add(NatBits(a, 8), NatBits(b, 8)));
    Value(Add(NatBits(a, 8), NatBits(b, 8)))
  }

  lemma OctetBound(m: seq<bool>)
    requires |m| == 8
    ensures Value(m) < 256
  {
    ByteValueBound(m);
  }

  lemma ValueNatBits(v: nat, n: nat)
    requires v < Pow2(n)
    ensures Value(NatBits(v, n)) == v
  {
    SmallNumber(v, n, Pow2(n));
  }

  /** Bit i of the exclusive-or of two octets is set exactly if it is set in one of them. */
  lemma Xor8Bit(a: Octet, b: Octet, i: nat, p: nat)
    requires i < 8 && p == Pow2(i)
    ensures Xor8(a, b) / p % 2 == 1 <==> (a / p % 2 == 1) != (b / p % 2 == 1)
  {
    var x, y := NatBits(a, 8), NatBits(b, 8);
    BitOfValue(Add(x, y), i);
    OctetBit(a, |x|, i);
    OctetBit(b, |y|, i);
  }

  lemma OctetBit(a: Octet, n: nat, i: nat)
    requires n == 8 && i < n
    ensures NatBits(a, n)[i] <==> a / Pow2(i) % 2 == 1
  {
    assert Pow2(n) == 256 by {
      PowersOfTwo();
    }
    BitOfNumber(a, n, i);
  }

  /** Exclusive-or with the same octet twice changes nothing. */
  lemma Xor8Twice(a: Octet, b: Octet)
    ensures Xor8(Xor8(a, b), b) == a
  {
    var x, y := NatBits(a, 8), NatBits(b, 8);
    NatBitsValue(Add(x, y), 8);
    assert Add(x, y) + Zeros(0) == Add(x, y);
    assert Add(Add(x, y), y) == x;
    assert Pow2(8) == 256;
    ValueNatBits(a, 8);
  }

  lemma XorCommutes(a: Octet, b: Octet)
    ensures Xor8(a, b) == Xor8(b, a)
  {
    assert Add(NatBits(a, 8), NatBits(b, 8)) == Add(NatBits(b, 8), NatBits(a, 8));
  }

  lemma XorZero(a: Octet)
    ensures Xor8(0, a) == a
  {
    assert Add(NatBits(0, 8), NatBits(a, 8)) == NatBits(a, 8);
    assert Pow2(8) == 256;
    ValueNatBits(a, 8);
  }

  /** s with the octets x at position p, as memcpy leaves it. */
  function Patch(s: seq<Octet>, p: nat, x: seq<Octet>): (r: seq<Octet>)
    requires p + |x| <= |s|
    ensures |r| == |s| && r[..p + |x|] == s[..p] + x
  {
    s[..p] + x + s[p + |x|..]
  }

  /** n octets of v, most significant first. */
  function BigEndian(v: nat, n: nat): (s: seq<Octet>)
    ensures |s| == n
  {
    if n == 0 then [] else BigEndian(v / 256, n - 1) + [v % 256]
  }

  /** n octets of v, least significant first. */
  function LittleEndian(v: nat, n: nat): (s: seq<Octet>)
    ensures |s| == n
  {
    if n == 0 then [] else [v % 256] + LittleEndian(v / 256, n - 1)
  }

  function Pow256(n: nat): (p: nat)
    ensures p > 0
  {
    if n == 0 then 1 else 256 * Pow256(n - 1)
  }

  /** The number that octets stand for if the first counts most: each has the weight of its place. */
  function FromBigEndian(s: seq<Octet>): nat {
    if s == [] then 0 else s[0] * Pow256(|s| - 1) + FromBigEndian(s[1..])
  }

  /** The number that octets stand for if the first counts least. */
  function FromLittleEndian(s: seq<Octet>): nat {
    if s == [] then 0 else s[|s| - 1] * Pow256(|s| - 1) + FromLittleEndian(s[..|s| - 1])
  }

  /** One more octet at the end moves the others up. */
  lemma {:induction false} BigEndianSnoc(s: seq<Octet>, x: Octet)
    ensures FromBigEndian(s + [x]) == 256 * FromBigEndian(s) + x
  {
    if s == [] {
      assert (s + [x])[1..] == [];
      assert Pow256(0) == 1;
    } else {
      BigEndianSnoc(s[1..], x);
      assert (s + [x])[1..] == s[1..] + [x];
      assert s[0] * (256 * Pow256(|s| - 1)) == 256 * (s[0] * Pow256(|s| - 1));
    }
  }

  /** One more octet at the start moves the others up. */
  lemma {:induction false} LittleEndianCons(x: Octet, s: seq<Octet>)
    ensures FromLittleEndian([x] + s) == x + 256 * FromLittleEndian(s)
    decreases |s|
  {
    if s == [] {
      assert [x] + s == [x] && [x][..0] == [];
      assert Pow256(0) == 1;
    } else {
      var n := |s| - 1;
      LittleEndianCons(x, s[..n]);
      assert ([x] + s)[..n + 1] == [x] + s[..n];
      assert s[n] * (256 * Pow256(n)) == 256 * (s[n] * Pow256(n));
    }
  }

  lemma LastOctet(v: nat, p: nat)
    requires p > 0
    ensures v % 256 + 256 * (v / 256 % p) == v % (256 * p)
  {
    var h, r := v / 256 / p, v / 256 % p;
    assert v == 256 * (p * h + r) + v % 256;
    assert v == (v % 256 + 256 * r) + (256 * p) * h;
    DivideBack(v % 256 + 256 * r, 256 * p, h);
  }

  /** Reading back what was encoded gives the number, modulo 256^n. */
  lemma {:induction false} BigEndianReads(v: nat, n: nat)
    ensures FromBigEndian(BigEndian(v, n)) == v % Pow256(n)
  {
    if n > 0 {
      BigEndianReads(v / 256, n - 1);
      BigEndianSnoc(BigEndian(v / 256, n - 1), v % 256);
      LastOctet(v, Pow256(n - 1));
    }
  }

  lemma {:induction false} LittleEndianReads(v: nat, n: nat)
    ensures FromLittleEndian(LittleEndian(v, n)) == v % Pow256(n)
  {
    if n > 0 {
      LittleEndianReads(v / 256, n - 1);
      LittleEndianCons(v % 256, LittleEndian(v / 256, n - 1));
      LastOctet(v, Pow256(n - 1));
    }
  }

  /** Octets are the encoding of the number they stand for. */
  lemma {:induction false} BigEndianWrites(s: seq<Octet>, n: nat)
    requires n == |s|
    ensures BigEndian(FromBigEndian(s), n) == s
    decreases n
  {
    if n > 0 {
      var a, x := s[..n - 1], s[n - 1];
      BigEndianWrites(a, n - 1);
      assert s == a + [x];
      BigEndianSnoc(a, x);
    }
  }

  lemma Pow256Of8()
    ensures Pow256(8) == 0x1_0000_0000_0000_0000 && Pow256(4) == 0x1_0000_0000
  {
    assert Pow256(2) == 256 * Pow256(1) == 65536;
    assert Pow256(4) == 256 * Pow256(3) == 65536 * Pow256(2);
    assert Pow256(6) == 256 * Pow256(5) == 65536 * Pow256(4);
    assert Pow256(8) == 256 * Pow256(7) == 65536 * Pow256(6);
  }

  /** Different numbers below 2^64 have different encodings. */
  lemma Be64Injective(v: nat, w: nat)
    requires v < 0x1_0000_0000_0000_0000 && w < 0x1_0000_0000_0000_0000 && Be64(v) == Be64(w)
    ensures v == w
  {
    Pow256Of8();
    BigEndianReads(v, 8);
    BigEndianReads(w, 8);
    SmallRemainder(v, Pow256(8));
    SmallRemainder(w, Pow256(8));
  }

  function Be64(v: nat): (s: seq<Octet>)
    ensures |s| == 8
  {
    BigEndian(v, 8)
  }

  /** Counting up changes only the last octet until it wraps. */
  lemma Be64Next(v: nat)
    requires v % 256 != 255
    ensures Be64(v + 1) == Be64(v)[7 := v % 256 + 1]
  {
    assert (v + 1) / 256 == v / 256 && (v + 1) % 256 == v % 256 + 1;
  }

  lemma Be64Last(v: nat)
    ensures Be64(v)[7] == v % 256
  {
  }
}
