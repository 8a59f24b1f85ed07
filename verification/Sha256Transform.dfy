/**
 The SHA-256 compression function (alg/sha256.c), for any table of round
 constants: the code rotates the roles of eight array slots where section 6.2.2
 of FIPS 180-4 moves the values of eight variables.
 */
module Sha256Transform {
  import opened Gf2
  import opened Machine
  import opened Words
  import opened Octets

  /** Eight words: a hash value, or the working variables a to h. */
  type Hash = h: seq<Word> | |h| == 8 witness seq(8, _ => seq(32, _ => false))

  /** Addition modulo 2^32. */
  function Plus(a: Word, b: Word): Word {
    U32(Value(a) + Value(b))
  }

  /** Bits above the word do not matter for a sum. */
  lemma {:induction false} NatBitsAdd(x: nat, y: nat, n: nat)
    ensures NatBits(Value(NatBits(x, n)) + y, n) == NatBits(x + y, n)
  {
    if n > 0 {
      var v := Value(NatBits(x / 2, n - 1));
      assert NatBits(x, n)[1..] == NatBits(x / 2, n - 1);
      assert Value(NatBits(x, n)) == x % 2 + 2 * v;
      NatBitsAdd(x / 2, (x % 2 + y) / 2, n - 1);
      Halves(x, y, v);
    }
  }

  lemma Halves(x: nat, y: nat, v: nat)
    ensures (x % 2 + 2 * v + y) / 2 == v + (x % 2 + y) / 2 && (x % 2 + 2 * v + y) % 2 == (x + y) % 2
    ensures (x + y) / 2 == x / 2 + (x % 2 + y) / 2
  {
  }

  lemma WordAdd(x: nat, y: nat)
    ensures U32(Value(U32(x)) + y) == U32(x + y)
  {
    NatBitsAdd(x, y, 32);
  }

  lemma SumAssociative(x: nat, y: nat, z: nat)
    ensures U32(Value(U32(x + y)) + z) == U32(x + Value(U32(y + z)))
  {
    WordAdd(x + y, z);
    WordAdd(y + z, x);
    assert x + y + z == y + z + x;
  }

  /** The value of a sum. */
  lemma PlusValue(a: Word, b: Word)
    ensures Value(Plus(a, b)) == (Value(a) + Value(b)) % 0x1_0000_0000
  {
    var n := |a|;
    Pow2Of32(n);
    LowBits(Value(a) + Value(b), n, Pow2(n));
  }

  lemma PlusAssociative(a: Word, b: Word, c: Word)
    ensures Plus(Plus(a, b), c) == Plus(a, Plus(b, c))
  {
    SumAssociative(Value(a), Value(b), Value(c));
  }

  lemma PlusCommutative(a: Word, b: Word)
    ensures Plus(a, b) == Plus(b, a)
  {
  }

  function Rotr(x: Word, n: nat): Word
    requires n <= 32
  {
    x[n..] + x[..n]
  }

  /** Rotation moves the upper bits down, and brings the lowest n bits back in at the top. */
  lemma RotrValue(x: Word, n: nat, p: nat)
    requires n <= 32 && p == Pow2(n)
    ensures Value(Rotr(x, n)) == Value(x) / p + Pow2(32 - n) * (Value(x) % p)
  {
    SplitValue(x, n, p);
    ValueConcat(x[n..], x[..n], Pow2(32 - n));
  }

  // ------------------------------------------------- section 4.1.2 of FIPS 180-4

  function Ch(x: Word, y: Word, z: Word): Word {
    seq(32, i requires 0 <= i < 32 => if x[i] then y[i] else z[i])
  }

  function Maj(x: Word, y: Word, z: Word): Word {
    seq(32, i requires 0 <= i < 32 => (x[i] && y[i]) || (x[i] && z[i]) || (y[i] && z[i]))
  }

  function BigSigma0(x: Word): Word { Xor(Xor(Rotr(x, 2), Rotr(x, 13)), Rotr(x, 22)) }
  function BigSigma1(x: Word): Word { Xor(Xor(Rotr(x, 6), Rotr(x, 11)), Rotr(x, 25)) }
  function SmallSigma0(x: Word): Word { Xor(Xor(Rotr(x, 7), Rotr(x, 18)), Shr(x, 3)) }
  function SmallSigma1(x: Word): Word { Xor(Xor(Rotr(x, 17), Rotr(x, 19)), Shr(x, 10)) }

  // ------------------------------------------------- the macros of the code

  function RotrMacro(x: Word, n: nat): Word
    requires n <= 32
  {
    Or(Shr(x, n), Shl(x, 32 - n))
  }

  function BigS0Macro(x: Word): Word { Xor(Xor(RotrMacro(x, 2), RotrMacro(x, 13)), RotrMacro(x, 22)) }
  function BigS1Macro(x: Word): Word { Xor(Xor(RotrMacro(x, 6), RotrMacro(x, 11)), RotrMacro(x, 25)) }
  function SmallS0Macro(x: Word): Word { Xor(Xor(RotrMacro(x, 7), RotrMacro(x, 18)), Shr(x, 3)) }
  function SmallS1Macro(x: Word): Word { Xor(Xor(RotrMacro(x, 17), RotrMacro(x, 19)), Shr(x, 10)) }

  /** Two shifts joined are a rotation. */
  lemma RotrMacroIs(x: Word, n: nat)
    requires n <= 32
    ensures RotrMacro(x, n) == Rotr(x, n)
  {
  }

  lemma BigSigmaMacros(x: Word)
    ensures BigS0Macro(x) == BigSigma0(x) && BigS1Macro(x) == BigSigma1(x)
  {
    RotrMacroIs(x, 2);
    RotrMacroIs(x, 13);
    RotrMacroIs(x, 22);
    RotrMacroIs(x, 6);
    RotrMacroIs(x, 11);
    RotrMacroIs(x, 25);
  }

  lemma SmallSigmaMacros(x: Word)
    ensures SmallS0Macro(x) == SmallSigma0(x) && SmallS1Macro(x) == SmallSigma1(x)
  {
    RotrMacroIs(x, 7);
    RotrMacroIs(x, 18);
    RotrMacroIs(x, 17);
    RotrMacroIs(x, 19);
  }

  /** The code's Ch and Maj use fewer operations. */
  lemma ChMacro(x: Word, y: Word, z: Word)
    ensures Xor(And(x, Xor(y, z)), z) == Ch(x, y, z)
  {
  }

  lemma MajMacro(x: Word, y: Word, z: Word)
    ensures Or(And(x, Or(y, z)), And(y, z)) == Maj(x, y, z)
  {
  }

  // ------------------------------------------------- section 6.2.2 of FIPS 180-4

  /** Message schedule word t, from the words before it. */
  function ScheduleWord(w: seq<Word>, t: nat): Word
    requires 16 <= t <= |w|
  {
    Plus(Plus(Plus(SmallSigma1(w[t - 2]), w[t - 7]), SmallSigma0(w[t - 15])), w[t - 16])
  }

  /** A sequence extended to n elements, each computed from those before it. */
  function Extend<T>(m: seq<T>, n: nat, next: seq<T> -> T): (w: seq<T>)
    requires |m| <= n
    ensures |w| == n
  {
    if n == |m| then m else Extend(m, n - 1, next) + [next(Extend(m, n - 1, next))]
  }

  lemma {:induction false} ExtendPrefix<T>(m: seq<T>, n: nat, next: seq<T> -> T, t: nat)
    requires |m| <= t <= n
    ensures Extend(m, n, next)[..t] == Extend(m, t, next)
    ensures t < n ==> Extend(m, n, next)[t] == next(Extend(m, t, next))
  {
    if t < n {
      var s := Extend(m, n - 1, next);
      ExtendPrefix(m, n - 1, next, t);
      assert (s + [next(s)])[..t] == s[..t];
    }
  }

  /** The first n words of the message schedule of m. */
  function Schedule(m: seq<Word>, n: nat): (w: seq<Word>)
    requires |m| == 16 <= n
    ensures |w| == n
  {
    Extend(m, n, NextWord)
  }

  function NextWord(w: seq<Word>): Word {
    if |w| < 16 then Zeros(32) else ScheduleWord(w, |w|)
  }

  lemma SchedulePrefix(m: seq<Word>, n: nat, t: nat)
    requires |m| == 16 <= t <= n
    ensures Schedule(m, n)[..t] == Schedule(m, t)
    ensures t < n ==> Schedule(m, n)[t] == ScheduleWord(Schedule(m, t), t)
  {
    ExtendPrefix(m, n, NextWord, t);
  }

  /** T1 = h + Sigma1(e) + Ch(e, f, g) + K_t + W_t */
  function T1(v: Hash, k: Word, w: Word): Word {
    Plus(Plus(Plus(Plus(v[7], BigSigma1(v[4])), Ch(v[4], v[5], v[6])), k), w)
  }

  function T2(v: Hash): Word {
    Plus(BigSigma0(v[0]), Maj(v[0], v[1], v[2]))
  }

  /** One round: every variable moves on, a and e take new values. */
  function Round(v: Hash, k: Word, w: Word): Hash {
    [Plus(T1(v, k, w), T2(v)), v[0], v[1], v[2], Plus(v[3], T1(v, k, w)), v[4], v[5], v[6]]
  }

  /** The working variables after t rounds. */
  function Rounds(k: seq<Word>, w: seq<Word>, h: Hash, t: nat): Hash
    requires |k| == |w| == 64 && t <= 64
  {
    if t == 0 then h else Round(Rounds(k, w, h, t - 1), k[t - 1], w[t - 1])
  }

  function PlusAll(a: Hash, b: Hash): Hash {
    seq<Word>(8, i requires 0 <= i < 8 => Plus(a[i], b[i]))
  }

  /** be32dec(p) */
  function Be32Dec(b: seq<Octet>): Word
    requires |b| == 4
  {
    NatBits(b[3], 8) + NatBits(b[2], 8) + NatBits(b[1], 8) + NatBits(b[0], 8)
  }

  /** Four octets are read most significant first. */
  lemma Be32DecValue(b: seq<Octet>)
    requires |b| == 4
    ensures Value(Be32Dec(b)) == FromBigEndian(b)
  {
    var c0, c1, c2, c3 := NatBits(b[3], 8), NatBits(b[2], 8), NatBits(b[1], 8), NatBits(b[0], 8);
    OctetBits(b[0], |c0|);
    OctetBits(b[1], |c0|);
    OctetBits(b[2], |c0|);
    OctetBits(b[3], |c0|);
    FourBytesValue(c0, c1, c2, c3);
    FourOctets(b);
  }

  lemma OctetBits(x: Octet, n: nat)
    requires n == 8
    ensures Value(NatBits(x, n)) == x
  {
    assert Pow2(n) == 256 by {
      PowersOfTwo();
    }
    SmallNumber(x, n, 256);
  }

  lemma FourOctets(b: seq<Octet>)
    requires |b| == 4
    ensures FromBigEndian(b) == 0x1000000 * b[0] as nat + 0x10000 * b[1] as nat + 0x100 * b[2] as nat + b[3] as nat
  {
    assert b == [b[0], b[1], b[2]] + [b[3]] && [b[0], b[1], b[2]] == [b[0], b[1]] + [b[2]] && [b[0], b[1]] == [b[0]] + [b[1]] && [b[0]] == [] + [b[0]];
    BigEndianSnoc([b[0], b[1], b[2]], b[3]);
    BigEndianSnoc([b[0], b[1]], b[2]);
    BigEndianSnoc([b[0]], b[1]);
    BigEndianSnoc([], b[0]);
  }

  /** be32dec undoes be32enc. */
  lemma Be32DecEnc(v: nat)
    ensures Be32Dec(BigEndian(v, 4)) == U32(v)
  {
    var b := BigEndian(v, 4);
    Be32DecValue(b);
    BigEndianReads(v, 4);
    Pow256Of8();
    SameNumber(Be32Dec(b), v, |Be32Dec(b)|);
  }

  lemma SameNumber(w: Word, v: nat, n: nat)
    requires n == 32 && Value(w) == v % 0x1_0000_0000
    ensures w == U32(v)
  {
    Pow2Of32(n);
    LowBits(v, n, Pow2(n));
    SameValue(w, U32(v), n);
  }

  /** be32dec_vect(W, block, 64) */
  function Decode(block: seq<Octet>): (m: seq<Word>)
    requires |block| == 64
    ensures |m| == 16
  {
    seq<Word>(16, i requires 0 <= i < 16 => Be32Dec(block[4 * i..4 * i + 4]))
  }

  function Compress(k: seq<Word>, h: Hash, block: seq<Octet>): Hash
    requires |k| == 64 && |block| == 64
  {
    PlusAll(h, Rounds(k, Schedule(Decode(block), 64), h, 64))
  }

  // ---------------------------------------------------------------- the code

  /** Where variable j is kept before round t. */
  function Slot(j: nat, t: nat): (p: nat)
    requires j < 8 && t <= 64
    ensures p < 8
  {
    (64 + j - t) % 8
  }

  /** After a round, each variable's slot holds what the next variable's slot will. */
  lemma SlotStep(j: nat, t: nat)
    requires j < 8 && t < 64
    ensures Slot(j, t + 1) == if j == 0 then Slot(7, t) else Slot(j - 1, t)
  {
  }

  lemma SlotsDiffer(i: nat, j: nat, t: nat)
    requires i < 8 && j < 8 && i != j && t <= 64
    ensures Slot(i, t) != Slot(j, t)
  {
  }

  /** The array S holds the working variables v, rotated for round t. */
  ghost predicate Rotated(S: seq<Word>, v: Hash, t: nat)
    requires t <= 64
  {
    |S| == 8 && forall j :: 0 <= j < 8 ==> S[Slot(j, t)] == v[j]
  }

  /** The code adds the five terms of T1 in another order. */
  lemma T1Regrouped(h: Word, s1: Word, ch: Word, k: Word, w: Word)
    ensures Plus(h, Plus(Plus(s1, ch), Plus(w, k))) == Plus(Plus(Plus(Plus(h, s1), ch), k), w)
  {
    PlusCommutative(w, k);
    PlusAssociative(Plus(s1, ch), k, w);
    PlusAssociative(s1, ch, k);
    PlusAssociative(h, Plus(Plus(s1, ch), k), w);
    PlusAssociative(h, Plus(s1, ch), k);
    PlusAssociative(h, s1, ch);
  }

  /** The value RND adds to h first, in the code's own terms. */
  function CodeT1(h: Word, e: Word, f: Word, g: Word, k: Word, w: Word): Word {
    Plus(h, Plus(Plus(BigS1Macro(e), Xor(And(e, Xor(f, g)), g)), Plus(w, k)))
  }

  /** The value RND adds to h last. */
  function CodeT2(a: Word, b: Word, c: Word): Word {
    Plus(BigS0Macro(a), Or(And(a, Or(b, c)), And(b, c)))
  }

  lemma CodeTerms(v: Hash, k: Word, w: Word)
    ensures CodeT1(v[7], v[4], v[5], v[6], k, w) == T1(v, k, w)
    ensures CodeT2(v[0], v[1], v[2]) == T2(v)
  {
    BigSigmaMacros(v[4]);
    BigSigmaMacros(v[0]);
    ChMacro(v[4], v[5], v[6]);
    MajMacro(v[0], v[1], v[2]);
    T1Regrouped(v[7], BigSigma1(v[4]), Ch(v[4], v[5], v[6]), k, w);
  }

  /** What a round does to the array, for values x, y and z to be stored. */
  lemma RoundStores(S: seq<Word>, v: Hash, t: nat, t1: Word, e: Word, a: Word)
    requires |S| == 8 && t < 64 && Rotated(S, v, t)
    ensures Rotated(S[Slot(7, t) := t1][Slot(3, t) := e][Slot(7, t) := a], [a, v[0], v[1], v[2], e, v[4], v[5], v[6]], t + 1)
  {
    Distinct8(t);
    var S' := S[Slot(7, t) := t1][Slot(3, t) := e][Slot(7, t) := a];
    forall j | 0 <= j < 7
      ensures S'[Slot(j, t)] == if j == 3 then e else v[j]
    {
      SlotsDiffer(j, 7, t);
      if j != 3 {
        SlotsDiffer(j, 3, t);
      }
    }
    Reslot(S', [a, v[0], v[1], v[2], e, v[4], v[5], v[6]], t);
  }

  /** RNDr(S, W, i, ii): one round with the slots of round t = i + ii. */
  method Rnd(S: array<Word>, t: nat, w: Word, k: Word, ghost v: Hash)
    requires S.Length == 8 && t < 64 && Rotated(S[..], v, t)
    modifies S
    ensures Rotated(S[..], Round(v, k, w), t + 1)
  {
    CodeTerms(v, k, w);
    Distinct8(t);
    ghost var before := S[..];
    assert forall j :: 0 <= j < 8 ==> S[Slot(j, t)] == v[j];
    var t1 := CodeT1(S[Slot(7, t)], S[Slot(4, t)], S[Slot(5, t)], S[Slot(6, t)], k, w);
    var e := Plus(S[Slot(3, t)], t1);
    var a := Plus(t1, CodeT2(S[Slot(0, t)], S[Slot(1, t)], S[Slot(2, t)]));
    S[Slot(7, t)] := t1;
    S[Slot(3, t)] := e;
    S[Slot(7, t)] := a;
    assert S[..] == before[Slot(7, t) := t1][Slot(3, t) := e][Slot(7, t) := a];
    RoundStores(before, v, t, t1, e, a);
  }

  lemma Distinct8(t: nat)
    requires t <= 64
    ensures forall i, j :: 0 <= i < j < 8 ==> Slot(i, t) != Slot(j, t)
  {
    forall i, j | 0 <= i < j < 8
      ensures Slot(i, t) != Slot(j, t)
    {
      SlotsDiffer(i, j, t);
    }
  }

  lemma Reslot(S: seq<Word>, v: Hash, t: nat)
    requires |S| == 8 && t < 64
    requires S[Slot(7, t)] == v[0] && forall j :: 0 <= j < 7 ==> S[Slot(j, t)] == v[j + 1]
    ensures Rotated(S, v, t + 1)
  {
    forall j | 0 <= j < 8
      ensures S[Slot(j, t + 1)] == v[j]
    {
      SlotStep(j, t);
    }
  }

  /** MSCH(W, ii, i): schedule word t + 16. */
  method Msch(W: array<Word>, t: nat, ghost w: seq<Word>)
    requires W.Length == |w| == 64 && t < 48 && W[..t + 16] == w[..t + 16]
    requires w[t + 16] == ScheduleWord(w[..t + 16], t + 16)
    modifies W
    ensures W[..t + 17] == w[..t + 17]
  {
    assert forall x :: 0 <= x < t + 16 ==> W[x] == W[..t + 16][x] == w[..t + 16][x];
    ghost var before := W[..t + 16];
    SmallSigmaMacros(W[t + 14]);
    SmallSigmaMacros(W[t + 1]);
    W[t + 16] := Plus(Plus(Plus(SmallS1Macro(W[t + 14]), W[t + 9]), SmallS0Macro(W[t + 1])), W[t]);
    assert W[..t + 17] == before + [W[t + 16]];
  }

  /** The array holds the working variables after t rounds. */
  ghost predicate After(S: array<Word>, k: seq<Word>, w: seq<Word>, h: Hash, t: nat)
    requires |k| == |w| == 64 && t <= 64
    reads S
  {
    forall b {:trigger Asked(b)} :: Asked(b) ==> Rotated(S[..], Rounds(k, w, h, t), t)
  }

  /** Round t, for which the schedule has been computed. */
  method MixOne(k: seq<Word>, W: array<Word>, S: array<Word>, t: nat, ghost w: seq<Word>, ghost h: Hash, ghost n: nat)
    requires |k| == |w| == W.Length == 64 && S.Length == 8 && S != W && t < n <= 64
    requires W[..n] == w[..n] && After(S, k, w, h, t)
    modifies S
    ensures After(S, k, w, h, t + 1)
  {
    assert Asked(true);
    assert W[t] == W[..n][t] == w[t];
    Rnd(S, t, W[t], k[t], Rounds(k, w, h, t));
  }

  /** The rounds i to i + 15. */
  method Mix16(k: seq<Word>, W: array<Word>, S: array<Word>, i: nat, ghost w: seq<Word>, ghost h: Hash)
    requires |k| == |w| == W.Length == 64 && S.Length == 8 && S != W && i + 16 <= 64
    requires W[..i + 16] == w[..i + 16]
    requires After(S, k, w, h, i)
    modifies S
    ensures After(S, k, w, h, i + 16)
  {
    for j := 0 to 16
      invariant After(S, k, w, h, i + j)
    {
      MixOne(k, W, S, i + j, w, h, i + 16);
    }
  }

  /** The schedule words i + 16 to i + 31. */
  method Schedule16(W: array<Word>, i: nat, ghost m: seq<Word>)
    requires W.Length == 64 && |m| == 16 && i + 32 <= 64
    requires W[..i + 16] == Schedule(m, 64)[..i + 16]
    modifies W
    ensures W[..i + 32] == Schedule(m, 64)[..i + 32]
  {
    for j := 0 to 16
      invariant W[..i + j + 16] == Schedule(m, 64)[..i + j + 16]
    {
      SchedulePrefix(m, 64, i + j + 16);
      Msch(W, i + j, Schedule(m, 64));
    }
  }

  /** A fresh array that starts with the words of s. */
  method CopyIn(s: seq<Word>, n: nat) returns (a: array<Word>)
    requires 0 < |s| <= n
    ensures fresh(a) && a.Length == n && a[..|s|] == s
  {
    a := new Word[n](_ => s[0]);
    for j := 0 to |s|
      invariant a[..j] == s[..j]
    {
      a[j] := s[j];
    }
  }

  /** The loop of SHA256_Transform: four times 16 rounds, extending the schedule in between. */
  method Mix(k: seq<Word>, W: array<Word>, S: array<Word>, ghost m: seq<Word>, ghost h: Hash)
    requires |k| == W.Length == 64 && S.Length == 8 && |m| == 16 && S != W
    requires W[..16] == m && S[..] == h
    modifies W, S
    ensures Rotated(S[..], Rounds(k, Schedule(m, 64), h, 64), 64)
  {
    ghost var w := Schedule(m, 64);
    SchedulePrefix(m, 64, 16);
    assert Rotated(S[..], h, 0);
    var i := 0;
    while i < 64
      invariant i == 0 || i == 16 || i == 32 || i == 48 || i == 64
      invariant i < 64 ==> W[..i + 16] == w[..i + 16]
      invariant After(S, k, w, h, i)
    {
      Mix16(k, W, S, i, w, h);
      if i != 48 {
        Schedule16(W, i, m);
      }
      i := i + 16;
    }
    assert Asked(true);
  }

  /** SHA256_Transform(state, block, W, S) */
  method Transform(k: seq<Word>, state: Hash, block: seq<Octet>) returns (r: Hash)
    requires |k| == 64 && |block| == 64
    ensures r == Compress(k, state, block)
  {
    var m := Decode(block);
    var W := CopyIn(m, 64);
    var S := CopyIn(state, 8);
    assert S[..] == S[..8] == state;
    Mix(k, W, S, m, state);
    r := [Plus(state[0], S[0]), Plus(state[1], S[1]), Plus(state[2], S[2]), Plus(state[3], S[3]),
          Plus(state[4], S[4]), Plus(state[5], S[5]), Plus(state[6], S[6]), Plus(state[7], S[7])];
    FinalSum(state, S[..], Rounds(k, Schedule(m, 64), state, 64));
  }

  lemma FinalSum(h: Hash, S: seq<Word>, v: Hash)
    requires Rotated(S, v, 64)
    ensures [Plus(h[0], S[0]), Plus(h[1], S[1]), Plus(h[2], S[2]), Plus(h[3], S[3]),
             Plus(h[4], S[4]), Plus(h[5], S[5]), Plus(h[6], S[6]), Plus(h[7], S[7])] == PlusAll(h, v)
  {
    assert forall j :: 0 <= j < 8 ==> Slot(j, 64) == j;
    assert S == v;
  }
}
