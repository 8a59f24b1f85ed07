/**
 Machine words as bit sequences, least significant bit first: index i is the
 bit of weight 2^i.  Shifts drop the bits that leave the word.
 */
module Words {
  import opened Gf2

  type Word = w: seq<bool> | |w| == 32 witness seq(32, _ => false)
  type Byte = b: seq<bool> | |b| == 8 witness seq(8, _ => false)

  /** The low n bits of a number. */
  function NatBits(v: nat, n: nat): (m: seq<bool>)
    ensures |m| == n
  {
    if n == 0 then [] else [v % 2 == 1] + NatBits(v / 2, n - 1)
  }

  function Value(m: seq<bool>): nat {
    if m == [] then 0 else (if m[0] then 1 else 0) + 2 * Value(m[1..])
  }

  /** As many of the low bits of a number as a word has. */
  function U32(v: nat): Word {
    NatBits(v, |Zeros(32)|)
  }

  function And(a: Word, b: Word): Word {
    seq(32, i requires 0 <= i < 32 => a[i] && b[i])
  }

  function Or(a: Word, b: Word): Word {
    seq(32, i requires 0 <= i < 32 => a[i] || b[i])
  }

  function Xor(a: Word, b: Word): Word {
    Add(a, b)
  }

  function Shl(a: Word, k: nat): Word
    requires k <= 32
  {
    Zeros(k) + a[..32 - k]
  }

  function Shr(a: Word, k: nat): Word
    requires k <= 32
  {
    a[k..] + Zeros(k)
  }

  function LowByte(a: Word): Byte {
    a[..8]
  }

  /** A byte widened to a word. */
  function Widen(b: Byte): Word {
    b + Zeros(24)
  }

  function XorByte(a: Byte, b: Byte): Byte {
    Add(a, b)
  }

  lemma {:induction false} ValueBound(m: seq<bool>, n: nat, p: nat)
    requires |m| == n && p == Pow2(n)
    ensures Value(m) < p
  {
    if n > 0 {
      ValueBound(m[1..], n - 1, Pow2(n - 1));
    }
  }

  function Pow2(n: nat): (p: nat)
    ensures p > 0
  {
    if n == 0 then 1 else 2 * Pow2(n - 1)
  }

  // ------------------------------------------------ words as numbers

  lemma Pow2Of32(n: nat)
    requires n == 32
    ensures Pow2(n) == 0x1_0000_0000
  {
    EightMore(n - 8);
    EightMore(n - 16);
    EightMore(n - 24);
    EightMore(n - 32);
  }

  lemma EightMore(n: nat)
    ensures Pow2(n + 8) == 256 * Pow2(n)
  {
    FourMore(n);
    FourMore(n + 4);
  }

  lemma FourMore(n: nat)
    ensures Pow2(n + 4) == 16 * Pow2(n)
  {
    assert Pow2(n + 2) == 2 * Pow2(n + 1) == 4 * Pow2(n);
    assert Pow2(n + 4) == 2 * Pow2(n + 3) == 4 * Pow2(n + 2);
  }

  /** Bits that follow others count more by their number. */
  lemma {:induction false} ValueConcat(a: seq<bool>, b: seq<bool>, p: nat)
    requires p == Pow2(|a|)
    ensures Value(a + b) == Value(a) + p * Value(b)
    decreases |a|
  {
    if a == [] {
      assert a + b == b;
    } else {
      var q := Pow2(|a| - 1);
      ValueConcat(a[1..], b, q);
      assert (a + b)[1..] == a[1..] + b;
      assert 2 * (q * Value(b)) == (2 * q) * Value(b);
    }
  }

  lemma DivideBack(low: nat, p: nat, high: nat)
    requires low < p
    ensures (low + p * high) / p == high && (low + p * high) % p == low
  {
    var v := low + p * high;
    OnlyQuotient(p, v / p, v % p, high, low);
  }

  lemma OnlyQuotient(p: nat, q: nat, r: nat, high: nat, low: nat)
    requires p * q + r == p * high + low && r < p && low < p
    ensures q == high && r == low
  {
    if q > high {
      Products(p, high + 1, q);
    } else if q < high {
      Products(p, q + 1, high);
    }
  }

  lemma Products(p: nat, a: nat, b: nat)
    requires a <= b
    ensures p * a <= p * b
  {
  }

  /** The bits below n and those from n on, of a number. */
  lemma SplitValue(m: seq<bool>, n: nat, p: nat)
    requires n <= |m| && p == Pow2(n)
    ensures Value(m[n..]) == Value(m) / p && Value(m[..n]) == Value(m) % p
  {
    assert m == m[..n] + m[n..];
    ValueConcat(m[..n], m[n..], p);
    ValueBound(m[..n], n, p);
    DivideBack(Value(m[..n]), p, Value(m[n..]));
  }

  /** Bit i of a word is the binary digit of weight 2^i of its value. */
  lemma BitOfValue(m: seq<bool>, i: nat)
    requires i < |m|
    ensures m[i] <==> Value(m) / Pow2(i) % 2 == 1
  {
    SplitValue(m, i, Pow2(i));
    LowestBit(m[i..]);
  }

  lemma LowestBit(m: seq<bool>)
    requires m != []
    ensures m[0] <==> Value(m) % 2 == 1
  {
    DivideBack(if m[0] then 1 else 0, 2, Value(m[1..]));
  }

  /** The low n bits of a number are those of its remainder modulo 2^n. */
  lemma {:induction false} LowBits(v: nat, n: nat, p: nat)
    requires p == Pow2(n)
    ensures Value(NatBits(v, n)) == v % p
  {
    if n > 0 {
      var q := Pow2(n - 1);
      LowBits(v / 2, n - 1, q);
      assert NatBits(v, n)[1..] == NatBits(v / 2, n - 1);
      HalfRemainder(v, q);
    }
  }

  lemma SmallRemainder(v: nat, p: nat)
    requires v < p
    ensures v % p == v
  {
  }

  lemma SmallNumber(v: nat, n: nat, p: nat)
    requires p == Pow2(n) && v < p
    ensures Value(NatBits(v, n)) == v
  {
    LowBits(v, n, p);
    SmallRemainder(v, p);
  }

  lemma BitOfNumber(v: nat, n: nat, i: nat)
    requires v < Pow2(n) && i < n
    ensures NatBits(v, n)[i] <==> v / Pow2(i) % 2 == 1
  {
    BitOfValue(NatBits(v, n), i);
    SmallNumber(v, n, Pow2(n));
  }

  lemma HalfRemainder(v: nat, q: nat)
    requires q > 0
    ensures v % 2 + 2 * (v / 2 % q) == v % (2 * q)
  {
    var h, r := v / 2 / q, v / 2 % q;
    assert v == 2 * (q * h + r) + v % 2;
    assert v == (v % 2 + 2 * r) + (2 * q) * h;
    DivideBack(v % 2 + 2 * r, 2 * q, h);
  }

  /** A shift to the right divides, and one to the left multiplies modulo 2^32. */
  lemma ShiftsAreArithmetic(x: Word, n: nat, p: nat)
    requires n <= 32 && p == Pow2(n)
    ensures Value(Shr(x, n)) == Value(x) / p && Value(Shl(x, n)) == p * (Value(x) % Pow2(32 - n))
  {
    SplitValue(x, n, p);
    ValueConcat(x[n..], Zeros(n), Pow2(32 - n));
    ZerosValue(n);
    SplitValue(x, 32 - n, Pow2(32 - n));
    ValueConcat(Zeros(n), x[..32 - n], p);
  }

  lemma {:induction false} ZerosValue(n: nat)
    ensures Value(Zeros(n)) == 0
  {
    if n > 0 {
      ZerosValue(n - 1);
      assert Zeros(n)[1..] == Zeros(n - 1);
    }
  }

  lemma ByteValueBound(b: Byte)
    ensures Value(b) < 256
  {
    ValueBound(b, 8, Pow2(8));
  }

  lemma {:induction false} NatBitsValue(m: seq<bool>, n: nat)
    requires n >= |m|
    ensures NatBits(Value(m), n) == m + Zeros(n - |m|)
  {
    if n > 0 {
      if m == [] {
        NatBitsValue(m, n - 1);
        assert Zeros(n) == [false] + Zeros(n - 1);
      } else {
        NatBitsValue(m[1..], n - 1);
        assert m + Zeros(n - |m|) == [m[0]] + (m[1..] + Zeros(n - |m|));
      }
    }
  }

  lemma PowersOfTwo()
    ensures Pow2(0) == 1 && Pow2(1) == 2 && Pow2(2) == 4 && Pow2(3) == 8 && Pow2(4) == 16
    ensures Pow2(5) == 32 && Pow2(6) == 64 && Pow2(7) == 128 && Pow2(8) == 256
  {
  }

  lemma FourBytesValue(c0: Byte, c1: Byte, c2: Byte, c3: Byte)
    ensures Value(c0 + c1 + c2 + c3) == Value(c0) + 0x100 * Value(c1) + 0x10000 * Value(c2) + 0x1000000 * Value(c3)
  {
    assert c0 + c1 + c2 + c3 == c0 + (c1 + (c2 + c3));
    NextByte(c0, c1 + (c2 + c3));
    NextByte(c1, c2 + c3);
    NextByte(c2, c3);
  }

  lemma NextByte(b: Byte, rest: seq<bool>)
    ensures Value(b + rest) == Value(b) + 256 * Value(rest)
  {
    PowersOfTwo();
    ValueConcat(b, rest, 256);
  }

  lemma SameValue(v: Word, w: Word, n: nat)
    requires Value(v) == Value(w) && n == 32
    ensures v == w
  {
    NatBitsValue(v, n);
    NatBitsValue(w, n);
    assert v + Zeros(0) == v && w + Zeros(0) == w;
  }

  /** Looking a table up at a byte's value finds the entry of that byte. */
  lemma WidenValue(b: Byte)
    ensures U32(Value(b)) == Widen(b)
  {
    NatBitsValue(b, 32);
  }
}
