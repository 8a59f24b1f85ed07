/**
 Polynomials over GF(2), written as the list of their coefficients with the
 highest power first, and remainders modulo a monic polynomial of degree 32.
 */
module Gf2 {

  type Poly = seq<bool>

  /** A remainder: 32 coefficients, those of x^31 down to x^0. */
  type Residue = r: seq<bool> | |r| == 32 witness seq(32, _ => false)

  function Zeros(n: nat): (z: Poly)
    ensures |z| == n
  {
    seq(n, _ => false)
  }

  /** Addition of two polynomials written with the same number of coefficients. */
  function Add(a: Poly, b: Poly): (c: Poly)
    requires |a| == |b|
    ensures |c| == |a|
  {
    seq(|a|, i requires 0 <= i < |a| => a[i] != b[i])
  }

  /** Schoolbook multiplication: (q x + c) p == (q p) x + c p. */
  function Mul(q: Poly, p: Poly): (m: Poly)
    requires |p| > 0
    ensures |m| == |q| + |p| - 1
  {
    if q == [] then Zeros(|p| - 1)
    else
      var n := |q| - 1;
      Add(Mul(q[..n], p) + [false], Zeros(n) + if q[n] then p else Zeros(|p|))
  }

  /** p divides m; leading zero coefficients of m do not matter. */
  ghost predicate Divides(p: Poly, m: Poly)
    requires |p| > 0
  {
    exists k: nat, q: Poly :: Zeros(k) + m == Mul(q, p)
  }

  /** The monic polynomial of degree 32 whose low coefficients are t. */
  function Monic(t: Residue): (p: Poly)
    ensures |p| == 33
  {
    [true] + t
  }

  /** Multiplication by x modulo the monic polynomial of tail t. */
  function TimesX(t: Residue, r: Residue): Residue {
    if r[0] then Add(r[1..] + [false], t) else r[1..] + [false]
  }

  function TimesXPow(t: Residue, r: Residue, n: nat): Residue {
    if n == 0 then r else TimesX(t, TimesXPow(t, r, n - 1))
  }

  /** Horner's rule: the remainder of r x^|m| + m. */
  function RemFrom(t: Residue, r: Residue, m: Poly): Residue {
    if m == [] then r
    else Add(TimesX(t, RemFrom(t, r, m[..|m| - 1])), Zeros(31) + [m[|m| - 1]])
  }

  /** The remainder of m modulo the monic polynomial of tail t. */
  function Rem(t: Residue, m: Poly): Residue {
    RemFrom(t, Zeros(32), m)
  }

  // ------------------------------------------------------ multiplication by x

  lemma TimesXLinear(t: Residue, a: Residue, b: Residue)
    ensures TimesX(t, Add(a, b)) == Add(TimesX(t, a), TimesX(t, b))
  {
    assert Add(a, b)[1..] + [false] == Add(a[1..] + [false], b[1..] + [false]);
  }

  lemma {:induction false} TimesXPowLinear(t: Residue, a: Residue, b: Residue, n: nat)
    ensures TimesXPow(t, Add(a, b), n) == Add(TimesXPow(t, a, n), TimesXPow(t, b, n))
  {
    if n > 0 {
      TimesXPowLinear(t, a, b, n - 1);
      TimesXLinear(t, TimesXPow(t, a, n - 1), TimesXPow(t, b, n - 1));
    }
  }

  lemma {:induction false} TimesXPowSum(t: Residue, r: Residue, m: nat, n: nat)
    ensures TimesXPow(t, r, m + n) == TimesXPow(t, TimesXPow(t, r, m), n)
  {
    if n > 0 {
      TimesXPowSum(t, r, m, n - 1);
    }
  }

  /** Times x^n is a plain shift when the top n coefficients are zero. */
  lemma {:induction false} TimesXPowShift(t: Residue, r: Residue, n: nat)
    requires n <= 32 && r[..n] == Zeros(n)
    ensures TimesXPow(t, r, n) == r[n..] + Zeros(n)
  {
    if n == 0 {
      assert r[0..] + Zeros(0) == r;
    } else {
      assert r[..n - 1] == r[..n][..n - 1] == Zeros(n - 1);
      TimesXPowShift(t, r, n - 1);
      assert !r[..n][n - 1];
      assert (r[n - 1..] + Zeros(n - 1))[1..] + [false] == r[n..] + Zeros(n);
    }
  }

  lemma TimesXPowZero(t: Residue, n: nat)
    ensures TimesXPow(t, Zeros(32), n) == Zeros(32)
  {
    if n > 0 {
      TimesXPowZero(t, n - 1);
      assert Zeros(32)[1..] + [false] == Zeros(32);
    }
  }

  // ------------------------------------------------------------ Horner's rule

  lemma {:induction false} RemFromConcat(t: Residue, r: Residue, a: Poly, b: Poly)
    ensures RemFrom(t, r, a + b) == RemFrom(t, RemFrom(t, r, a), b)
  {
    if b == [] {
      assert a + b == a;
    } else {
      var n := |b| - 1;
      RemFromConcat(t, r, a, b[..n]);
      assert (a + b)[..|a + b| - 1] == a + b[..n];
    }
  }

  /** Up to 32 coefficients are shifted in below r x^n without being reduced themselves. */
  lemma {:induction false} RemFromShort(t: Residue, r: Residue, m: Poly)
    requires |m| <= 32
    ensures RemFrom(t, r, m) == Add(TimesXPow(t, r, |m|), Zeros(32 - |m|) + m)
  {
    if m == [] {
      assert Add(r, Zeros(32) + m) == r;
    } else {
      var n := |m| - 1;
      RemFromShort(t, r, m[..n]);
      var low: Residue := Zeros(32 - n) + m[..n];
      TimesXLinear(t, TimesXPow(t, r, n), low);
      assert !low[0];
      assert Add(TimesX(t, low), Zeros(31) + [m[n]]) == Zeros(32 - |m|) + m;
      assert RemFrom(t, r, m) == Add(Add(TimesXPow(t, r, |m|), TimesX(t, low)), Zeros(31) + [m[n]]);
    }
  }

  lemma {:induction false} RemFromZeros(t: Residue, r: Residue, n: nat)
    ensures RemFrom(t, r, Zeros(n)) == TimesXPow(t, r, n)
  {
    if n > 0 {
      RemFromZeros(t, r, n - 1);
      assert Zeros(n)[..n - 1] == Zeros(n - 1);
      assert Zeros(31) + [false] == Zeros(32);
    }
  }

  lemma {:induction false} RemFromLinear(t: Residue, r: Residue, s: Residue, a: Poly, b: Poly)
    requires |a| == |b|
    ensures RemFrom(t, Add(r, s), Add(a, b)) == Add(RemFrom(t, r, a), RemFrom(t, s, b))
  {
    if a != [] {
      var n := |a| - 1;
      RemFromLinear(t, r, s, a[..n], b[..n]);
      assert Add(a, b)[..n] == Add(a[..n], b[..n]);
      TimesXLinear(t, RemFrom(t, r, a[..n]), RemFrom(t, s, b[..n]));
    }
  }

  lemma RemLinear(t: Residue, a: Poly, b: Poly)
    requires |a| == |b|
    ensures Rem(t, Add(a, b)) == Add(Rem(t, a), Rem(t, b))
  {
    RemFromLinear(t, Zeros(32), Zeros(32), a, b);
    assert Add(Zeros(32), Zeros(32)) == Zeros(32);
  }

  /** Leading zeros do not change a remainder. */
  lemma RemPadded(t: Residue, k: nat, m: Poly)
    ensures Rem(t, Zeros(k) + m) == Rem(t, m)
  {
    RemFromConcat(t, Zeros(32), Zeros(k), m);
    RemFromZeros(t, Zeros(32), k);
    TimesXPowZero(t, k);
  }

  // ----------------------------------------------------- division with remainder

  lemma RemMonic(t: Residue)
    ensures Rem(t, Monic(t)) == Zeros(32)
  {
    RemOne(t);
    RemFromConcat(t, Zeros(32), [true], t);
    RemFromShort(t, Zeros(31) + [true], t);
    TimesXPowOne(t);
    assert Zeros(0) + t == t;
  }

  lemma RemOne(t: Residue)
    ensures Rem(t, [true]) == Zeros(31) + [true]
  {
    RemFromShort(t, Zeros(32), [true]);
    TimesXPowZero(t, 1);
    assert Add(Zeros(32), Zeros(31) + [true]) == Zeros(31) + [true];
  }

  /** x^32 leaves the low coefficients of the polynomial. */
  lemma TimesXPowOne(t: Residue)
    ensures TimesXPow(t, Zeros(31) + [true], 32) == t
  {
    var one: Residue := Zeros(31) + [true];
    assert one[..31] == Zeros(31);
    TimesXPowShift(t, one, 31);
    var top: Residue := one[31..] + Zeros(31);
    assert top[0] && top[1..] + [false] == Zeros(32);
    assert Add(Zeros(32), t) == t;
  }

  /** One row of long division, as an identity between sums. */
  lemma DivisionRow(qp: Poly, n: nat, r: Residue, b: bool, term: Poly, rest: Residue)
    requires |qp| == n + 32 && |term| == 33
    requires r + [b] == Add(term, [false] + rest)
    ensures Add(qp, Zeros(n) + r) + [b] == Add(Add(qp + [false], Zeros(n) + term), Zeros(n + 1) + rest)
  {
    var left := Add(qp, Zeros(n) + r) + [b];
    var right := Add(Add(qp + [false], Zeros(n) + term), Zeros(n + 1) + rest);
    forall i | 0 <= i < n + 33
      ensures left[i] == right[i]
    {
      if i >= n {
        assert (r + [b])[i - n] == (term[i - n] != ([false] + rest)[i - n]);
      }
    }
  }

  lemma RemLast(t: Residue, m: Poly, b: bool)
    ensures Rem(t, m + [b]) == Add(TimesX(t, Rem(t, m)), Zeros(31) + [b])
  {
    assert (m + [b])[..|m|] == m;
  }

  /** What TimesX drops is the modulus, when the leading coefficient is set. */
  lemma CarryOut(t: Residue, r: Residue, b: bool)
    ensures r + [b] == Add(if r[0] then Monic(t) else Zeros(33), [false] + Add(TimesX(t, r), Zeros(31) + [b]))
  {
  }

  /** Long division: m == q p + Rem(m), with q found one coefficient at a time. */
  lemma {:induction false} DivMod(t: Residue, m: Poly) returns (q: Poly)
    ensures |q| == |m|
    ensures Zeros(32) + m == Add(Mul(q, Monic(t)), Zeros(|m|) + Rem(t, m))
  {
    if m == [] {
      q := [];
      assert Zeros(32) + m == Add(Zeros(32), Zeros(0) + Zeros(32));
    } else {
      var n, p := |m| - 1, Monic(t);
      var q0 := DivMod(t, m[..n]);
      var r := Rem(t, m[..n]);
      var term := if r[0] then p else Zeros(33);
      q := q0 + [r[0]];
      assert q[..n] == q0;
      assert m == m[..n] + [m[n]];
      RemLast(t, m[..n], m[n]);
      CarryOut(t, r, m[n]);
      DivisionRow(Mul(q0, p), n, r, m[n], term, Rem(t, m));
      assert Zeros(32) + m == (Zeros(32) + m[..n]) + [m[n]];
    }
  }

  /** A shifted modulus, or nothing, leaves no remainder. */
  lemma RemRow(t: Residue, n: nat, c: bool)
    ensures Rem(t, Zeros(n) + if c then Monic(t) else Zeros(33)) == Zeros(32)
  {
    if c {
      RemMonic(t);
      RemPadded(t, n, Monic(t));
    } else {
      RemPadded(t, n + 33, []);
      assert Zeros(n) + Zeros(33) == Zeros(n + 33) + [];
    }
  }

  lemma {:induction false} RemMultiple(t: Residue, q: Poly)
    ensures Rem(t, Mul(q, Monic(t))) == Zeros(32)
  {
    if q == [] {
      RemPadded(t, 32, []);
      assert Zeros(32) + [] == Zeros(32);
    } else {
      var n := |q| - 1;
      var prefix := Mul(q[..n], Monic(t));
      RemMultiple(t, q[..n]);
      RemLast(t, prefix, false);
      TimesXPowZero(t, 1);
      assert TimesXPow(t, Zeros(32), 1) == TimesX(t, TimesXPow(t, Zeros(32), 0));
      assert Zeros(31) + [false] == Zeros(32);
      RemRow(t, n, q[n]);
      RemLinear(t, prefix + [false], Zeros(n) + if q[n] then Monic(t) else Zeros(33));
      assert Add(Zeros(32), Zeros(32)) == Zeros(32);
    }
  }

  /** A monic polynomial divides m exactly when Horner's rule ends at zero. */
  lemma DividesIffRemZero(t: Residue, m: Poly)
    ensures Divides(Monic(t), m) <==> Rem(t, m) == Zeros(32)
  {
    var p := Monic(t);
    if Divides(p, m) {
      var k: nat, q: Poly :| Zeros(k) + m == Mul(q, p);
      RemMultiple(t, q);
      RemPadded(t, k, m);
    }
    if Rem(t, m) == Zeros(32) {
      var q := DivMod(t, m);
      assert Zeros(32) + m == Mul(q, p);
    }
  }
}
