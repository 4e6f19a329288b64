module Gf128 {
  // The field GF(2^128) of GHASH: the bit-serial multiplication of
  // src/security/crypto/gcm.cpp is multiplication of polynomials modulo
  // x^128 + x^7 + x^2 + x + 1 (sections 6.3 and 6.4 of NIST SP 800-38D).

  const N: nat := 128

  /** A block is a polynomial of degree below 128; bit i of the block, counted
      from the most significant bit of byte 0, is the coefficient of x^i. */
  type Block = s: seq<bool> | |s| == N witness Zeros(N)

  function Zeros(n: nat): (z: seq<bool>)
    ensures |z| == n
  {
    seq(n, _ => false)
  }

  const ZERO: Block := Zeros(N)
  const ONE: Block := [true] + Zeros(N - 1)

  function Xor(a: Block, b: Block): Block {
    seq(N, i requires 0 <= i < N => a[i] != b[i])
  }

  // x^128 is x^7 + x^2 + x + 1.
  predicate InR(i: int) { i == 0 || i == 1 || i == 2 || i == 7 }

  // Multiplication by x: a shift, and a reduction if x^128 appears.
  function TimesX(v: Block): Block {
    seq(N, i requires 0 <= i < N => (i > 0 && v[i - 1]) != (v[N - 1] && InR(i)))
  }

  function TimesXPow(v: Block, k: nat): Block {
    if k == 0 then v else TimesX(TimesXPow(v, k - 1))
  }

  // The first n steps of the bit-serial loop.
  function MulSteps(x: Block, y: Block, n: nat): Block
    requires n <= N
  {
    if n == 0 then ZERO
    else if x[n - 1] then Xor(MulSteps(x, y, n - 1), TimesXPow(y, n - 1))
    else MulSteps(x, y, n - 1)
  }

  function Mul(x: Block, y: Block): Block { MulSteps(x, y, N) }

  // ---- Addition ---------------------------------------------------------

  lemma XorComm(a: Block, b: Block) ensures Xor(a, b) == Xor(b, a) {}

  lemma XorAssoc(a: Block, b: Block, c: Block) ensures Xor(Xor(a, b), c) == Xor(a, Xor(b, c)) {}

  lemma XorZero(a: Block) ensures Xor(a, ZERO) == a && Xor(ZERO, a) == a {}

  lemma XorSelf(a: Block) ensures Xor(a, a) == ZERO {}

  // (a + b) + (c + d) == (a + c) + (b + d)
  lemma XorSwap(a: Block, b: Block, c: Block, d: Block)
    ensures Xor(Xor(a, b), Xor(c, d)) == Xor(Xor(a, c), Xor(b, d))
  {}

  // ---- Linearity --------------------------------------------------------

  lemma TimesXLinear(a: Block, b: Block)
    ensures TimesX(Xor(a, b)) == Xor(TimesX(a), TimesX(b))
  {}

  lemma {:induction false} TimesXPowLinear(a: Block, b: Block, k: nat)
    ensures TimesXPow(Xor(a, b), k) == Xor(TimesXPow(a, k), TimesXPow(b, k))
  {
    if k > 0 {
      TimesXPowLinear(a, b, k - 1);
      TimesXLinear(TimesXPow(a, k - 1), TimesXPow(b, k - 1));
    }
  }

  lemma {:induction false} TimesXPowZero(k: nat)
    ensures TimesXPow(ZERO, k) == ZERO
  {
    if k > 0 {
      TimesXPowZero(k - 1);
      assert TimesX(ZERO) == ZERO;
    }
  }

  lemma {:induction false} TimesXPowAdd(v: Block, j: nat, k: nat)
    ensures TimesXPow(TimesXPow(v, j), k) == TimesXPow(v, j + k)
  {
    if k > 0 { TimesXPowAdd(v, j, k - 1); }
  }

  lemma {:induction false} StepsLinearRight(x: Block, y: Block, z: Block, n: nat)
    requires n <= N
    ensures MulSteps(x, Xor(y, z), n) == Xor(MulSteps(x, y, n), MulSteps(x, z, n))
  {
    if n == 0 {
      XorZero(ZERO);
    } else {
      StepsLinearRight(x, y, z, n - 1);
      TimesXPowLinear(y, z, n - 1);
      XorSwap(MulSteps(x, y, n - 1), MulSteps(x, z, n - 1), TimesXPow(y, n - 1), TimesXPow(z, n - 1));
    }
  }

  lemma {:induction false} StepsLinearLeft(w: Block, x: Block, y: Block, n: nat)
    requires n <= N
    ensures MulSteps(Xor(w, x), y, n) == Xor(MulSteps(w, y, n), MulSteps(x, y, n))
  {
    if n == 0 {
      XorZero(ZERO);
    } else {
      StepsLinearLeft(w, x, y, n - 1);
      var a, b, p := MulSteps(w, y, n - 1), MulSteps(x, y, n - 1), TimesXPow(y, n - 1);
      XorAssoc(a, b, p);
      XorAssoc(a, p, b);
      XorComm(b, p);
      XorSwap(a, p, b, p);
      XorSelf(p);
      XorZero(Xor(a, b));
    }
  }

  lemma {:induction false} StepsTimesX(x: Block, y: Block, k: nat, n: nat)
    requires n <= N
    ensures MulSteps(x, TimesXPow(y, k), n) == TimesXPow(MulSteps(x, y, n), k)
  {
    if n == 0 {
      TimesXPowZero(k);
    } else {
      StepsTimesX(x, y, k, n - 1);
      TimesXPowAdd(y, k, n - 1);
      TimesXPowAdd(y, n - 1, k);
      TimesXPowLinear(MulSteps(x, y, n - 1), TimesXPow(y, n - 1), k);
    }
  }

  // ---- The unit ---------------------------------------------------------

  // Below degree 128 nothing is reduced.
  lemma {:induction false} PowerOfX(k: nat)
    requires k < N
    ensures TimesXPow(ONE, k) == seq(N, i => i == k)
  {
    if k > 0 { PowerOfX(k - 1); }
  }

  /** The field's polynomial: x^128 is x^7 + x^2 + x + 1, and below 128 powers
      of x are single bits. */
  lemma PowersOfX(k: nat, i: nat)
    requires k <= 128 && i < 128
    ensures TimesXPow(ONE, k)[i] <==> if k < 128 then i == k else i == 0 || i == 1 || i == 2 || i == 7
  {
    if k < 128 { PowerOfX(k); } else { PowerOfX(127); }
  }

  lemma {:induction false} StepsOfOne(x: Block, n: nat)
    requires n <= N
    ensures MulSteps(x, ONE, n) == seq(N, i requires 0 <= i < N => i < n && x[i])
  {
    if n > 0 {
      StepsOfOne(x, n - 1);
      PowerOfX(n - 1);
    }
  }

  lemma {:induction false} OneTimesSteps(y: Block, n: nat)
    requires 1 <= n <= N
    ensures MulSteps(ONE, y, n) == y
  {
    if n == 1 {
      assert MulSteps(ONE, y, 0) == ZERO;
      XorZero(y);
    } else {
      OneTimesSteps(y, n - 1);
    }
  }

  lemma MulUnit(x: Block)
    ensures Mul(x, ONE) == x && Mul(ONE, x) == x
  {
    StepsOfOne(x, N);
    OneTimesSteps(x, N);
  }

  // ---- A commutative ring -----------------------------------------------

  lemma MulBilinear(x: Block, y: Block, z: Block)
    ensures Mul(x, Xor(y, z)) == Xor(Mul(x, y), Mul(x, z))
    ensures Mul(Xor(x, y), z) == Xor(Mul(x, z), Mul(y, z))
  {
    StepsLinearRight(x, y, z, N);
    StepsLinearLeft(x, y, z, N);
  }

  lemma MulZero(x: Block)
    ensures Mul(x, ZERO) == ZERO && Mul(ZERO, x) == ZERO
  {
    MulBilinear(x, ZERO, ZERO);
    MulBilinear(ZERO, ZERO, x);
    XorZero(ZERO);
    XorSelf(Mul(x, ZERO));
    XorSelf(Mul(ZERO, x));
  }

  lemma {:induction false} StepsCommute(x: Block, y: Block, n: nat)
    requires n <= N
    ensures MulSteps(x, y, n) == Mul(y, MulSteps(x, ONE, n))
  {
    if n == 0 {
      MulZero(y);
    } else {
      StepsCommute(x, y, n - 1);
      StepsTimesX(y, ONE, n - 1, N);
      MulUnit(y);
      MulBilinear(y, MulSteps(x, ONE, n - 1), TimesXPow(ONE, n - 1));
    }
  }

  lemma MulCommutes(x: Block, y: Block)
    ensures Mul(x, y) == Mul(y, x)
  {
    StepsCommute(x, y, N);
    MulUnit(x);
  }

  lemma {:induction false} StepsAssociate(x: Block, y: Block, z: Block, n: nat)
    requires n <= N
    ensures Mul(MulSteps(x, y, n), z) == MulSteps(x, Mul(y, z), n)
  {
    if n == 0 {
      MulZero(z);
    } else {
      StepsAssociate(x, y, z, n - 1);
      var p := TimesXPow(y, n - 1);
      MulBilinear(MulSteps(x, y, n - 1), p, z);
      MulCommutes(p, z);
      StepsTimesX(z, y, n - 1, N);
      MulCommutes(z, y);
    }
  }

  lemma MulAssociates(x: Block, y: Block, z: Block)
    ensures Mul(Mul(x, y), z) == Mul(x, Mul(y, z))
  {
    StepsAssociate(x, y, z, N);
  }

  // ---- Polynomial multiplication and long division ----------------------

  type Poly = seq<bool>

  // Coefficient k of a product, from the first n coefficients of x.
  function Coefficient(x: Poly, y: Poly, k: int, n: nat): bool
    requires n <= |x|
  {
    if n == 0 then false
    else Coefficient(x, y, k, n - 1) != (x[n - 1] && 0 <= k - (n - 1) < |y| && y[k - (n - 1)])
  }

  // The product as polynomials over GF(2), not reduced.
  function Product(x: Poly, y: Poly): Poly {
    seq(|x| + |y|, k requires 0 <= k < |x| + |y| => Coefficient(x, y, k, |x|))
  }

  // Subtract x^(d-128) * (x^128 + x^7 + x^2 + x + 1) where d is the top degree.
  function DropTop(p: Poly): (q: Poly)
    requires |p| > N
    ensures |q| == |p| - 1
  {
    seq(|p| - 1, i requires 0 <= i < |p| - 1 => p[i] != (p[|p| - 1] && InR(i + N + 1 - |p|)))
  }

  /** Remainder of long division by x^128 + x^7 + x^2 + x + 1. */
  function Remainder(p: Poly): Block
    decreases |p|
  {
    if |p| <= N then p + Zeros(N - |p|) else Remainder(DropTop(p))
  }

  // The sum of x^k over the set coefficients k < n, computed in the field.
  function Residue(p: Poly, n: nat): Block
    requires n <= |p|
  {
    if n == 0 then ZERO
    else if p[n - 1] then Xor(Residue(p, n - 1), TimesXPow(ONE, n - 1))
    else Residue(p, n - 1)
  }

  function PolyXor(p: Poly, q: Poly): Poly
    requires |p| == |q|
  {
    seq(|p|, i requires 0 <= i < |p| => p[i] != q[i])
  }

  lemma {:induction false} ResidueLinear(p: Poly, q: Poly, n: nat)
    requires n <= |p| == |q|
    ensures Residue(PolyXor(p, q), n) == Xor(Residue(p, n), Residue(q, n))
  {
    if n == 0 {
      XorZero(ZERO);
    } else {
      ResidueLinear(p, q, n - 1);
      var a, b, t := Residue(p, n - 1), Residue(q, n - 1), TimesXPow(ONE, n - 1);
      XorAssoc(a, b, t);
      XorAssoc(a, t, b);
      XorComm(b, t);
      XorSwap(a, t, b, t);
      XorSelf(t);
      XorZero(Xor(a, b));
    }
  }

  lemma {:induction false} ResidueOfPrefix(p: Poly, q: Poly, n: nat)
    requires n <= |p| && n <= |q| && p[..n] == q[..n]
    ensures Residue(p, n) == Residue(q, n)
  {
    if n > 0 {
      assert p[..n - 1] == p[..n][..n - 1] && q[..n - 1] == q[..n][..n - 1];
      assert p[n - 1] == p[..n][n - 1] && q[n - 1] == q[..n][n - 1];
      ResidueOfPrefix(p, q, n - 1);
    }
  }

  lemma {:induction false} ResidueOfZeros(p: Poly, n: nat)
    requires n <= |p| && forall i :: 0 <= i < n ==> !p[i]
    ensures Residue(p, n) == ZERO
  {
    if n > 0 { ResidueOfZeros(p, n - 1); }
  }

  // s zeros, then y, then z zeros: x^s * y.
  function Shifted(y: Poly, s: nat, z: nat): Poly {
    Zeros(s) + y + Zeros(z)
  }

  lemma {:induction false} ResidueOfShift(y: Poly, s: nat, z: nat, n: nat)
    requires n <= |y|
    ensures Residue(Shifted(y, s, z), s + n) == TimesXPow(Residue(y, n), s)
  {
    var p := Shifted(y, s, z);
    if n == 0 {
      ResidueOfZeros(p, s);
      TimesXPowZero(s);
    } else {
      ResidueOfShift(y, s, z, n - 1);
      assert p[s + n - 1] == y[n - 1];
      TimesXPowLinear(Residue(y, n - 1), TimesXPow(ONE, n - 1), s);
      TimesXPowAdd(ONE, n - 1, s);
    }
  }

  lemma {:induction false} ResidueOfTail(p: Poly, n: nat, m: nat)
    requires n <= m <= |p| && forall i :: n <= i < m ==> !p[i]
    ensures Residue(p, m) == Residue(p, n)
  {
    if n < m { ResidueOfTail(p, n, m - 1); }
  }

  // A polynomial of degree below 128 is its own residue.
  lemma {:induction false} ResidueIsSteps(b: Block, n: nat)
    requires n <= N
    ensures Residue(b, n) == MulSteps(b, ONE, n)
  {
    if n > 0 { ResidueIsSteps(b, n - 1); }
  }

  lemma {:induction false} ResidueOfSmall(p: Poly)
    requires |p| <= N
    ensures Residue(p, |p|) == p + Zeros(N - |p|)
  {
    var b: Block := p + Zeros(N - |p|);
    assert b[..|p|] == p[..|p|];
    ResidueOfPrefix(p, b, |p|);
    ResidueOfTail(b, |p|, N);
    ResidueIsSteps(b, N);
    MulUnit(b);
  }

  // ---- Long division gives the residue ----------------------------------

  const R: Poly := [true, true, true, false, false, false, false, true]

  lemma XTo128()
    ensures TimesXPow(ONE, N) == Residue(R, 8)
  {
    PowerOfX(N - 1);
    ResidueOfSmall(R);
    assert TimesX(TimesXPow(ONE, N - 1)) == R + Zeros(N - 8);
  }

  lemma ShiftedR(s: nat, z: nat, i: nat)
    requires i < s + 8 + z
    ensures Shifted(R, s, z)[i] == InR(i - s)
  {
    if s <= i < s + 8 {
      assert Shifted(R, s, z)[i] == R[i - s];
      assert i - s == 0 || i - s == 1 || i - s == 2 || i - s == 3
          || i - s == 4 || i - s == 5 || i - s == 6 || i - s == 7;
    }
  }

  lemma DropTopSubtracts(p: Poly)
    requires |p| > N && p[|p| - 1]
    ensures DropTop(p) == PolyXor(p[..|p| - 1], Shifted(R, |p| - 1 - N, N - 8))
  {
    forall i | 0 <= i < |p| - 1 ensures DropTop(p)[i] == (p[i] != Shifted(R, |p| - 1 - N, N - 8)[i]) {
      ShiftedR(|p| - 1 - N, N - 8, i);
    }
  }

  // x^d is the residue of x^(d-128) * (x^7 + x^2 + x + 1).
  lemma TopPower(d: nat)
    requires d >= N
    ensures Residue(Shifted(R, d - N, N - 8), d) == TimesXPow(ONE, d)
  {
    ResidueOfTail(Shifted(R, d - N, N - 8), d - N + 8, d);
    ResidueOfShift(R, d - N, N - 8, 8);
    XTo128();
    TimesXPowAdd(ONE, N, d - N);
  }

  lemma {:induction false} TradeTop(p: Poly, q: Poly, low: Poly, t: Poly)
    requires |p| > 0 && low == p[..|p| - 1] && |t| == |low| && q == (if p[|p| - 1] then PolyXor(low, t) else low)
    requires Residue(t, |t|) == TimesXPow(ONE, |t|)
    ensures Residue(q, |q|) == Residue(p, |p|)
  {
    ResidueOfPrefix(p, low, |low|);
    if p[|p| - 1] { ResidueLinear(low, t, |low|); }
  }

  lemma {:induction false} DropTopKeepsResidue(p: Poly)
    requires |p| > N
    ensures Residue(DropTop(p), |p| - 1) == Residue(p, |p|)
  {
    var d := |p| - 1;
    TopPower(d);
    if p[d] { DropTopSubtracts(p); } else { assert DropTop(p) == p[..d]; }
    TradeTop(p, DropTop(p), p[..d], Shifted(R, d - N, N - 8));
  }

  lemma {:induction false} RemainderIsResidue(p: Poly)
    ensures Remainder(p) == Residue(p, |p|)
    decreases |p|
  {
    if |p| <= N {
      ResidueOfSmall(p);
    } else {
      DropTopKeepsResidue(p);
      RemainderIsResidue(DropTop(p));
    }
  }

  // ---- The bit-serial product is the product modulo the polynomial ------

  function ProductSteps(x: Poly, y: Poly, n: nat): Poly
    requires n <= |x|
  {
    seq(|x| + |y|, k requires 0 <= k < |x| + |y| => Coefficient(x, y, k, n))
  }

  lemma {:induction false} ProductStepsResidue(x: Block, y: Block, n: nat)
    requires n <= N
    ensures Residue(ProductSteps(x, y, n), 2 * N) == MulSteps(x, y, n)
  {
    if n == 0 {
      ResidueOfZeros(ProductSteps(x, y, 0), 2 * N);
    } else {
      ProductStepsResidue(x, y, n - 1);
      if x[n - 1] {
        var t := Shifted(y, n - 1, N - n + 1);
        assert ProductSteps(x, y, n) == PolyXor(ProductSteps(x, y, n - 1), t);
        ResidueLinear(ProductSteps(x, y, n - 1), t, 2 * N);
        ResidueOfTail(t, n - 1 + N, 2 * N);
        ResidueOfShift(y, n - 1, N - n + 1, N);
        ResidueIsSteps(y, N);
        MulUnit(y);
      } else {
        assert ProductSteps(x, y, n) == ProductSteps(x, y, n - 1);
      }
    }
  }

  /** The bit-serial multiplication is polynomial multiplication followed by
      long division by x^128 + x^7 + x^2 + x + 1. */
  lemma MulIsProductModP(x: Block, y: Block)
    ensures Mul(x, y) == Remainder(Product(x, y))
  {
    ProductStepsResidue(x, y, N);
    RemainderIsResidue(Product(x, y));
    assert Product(x, y) == ProductSteps(x, y, N);
  }

  // ---- GHASH ------------------------------------------------------------

  // ghash_update: fold blocks into the running value y under key h.
  function Ghash(h: Block, xs: seq<Block>, y: Block): Block
    decreases |xs|
  {
    if |xs| == 0 then y else Ghash(h, xs[1..], Mul(Xor(y, xs[0]), h))
  }

  function Power(h: Block, k: nat): Block {
    if k == 0 then ONE else Mul(Power(h, k - 1), h)
  }

  /** x[0] h^m + x[1] h^(m-1) + ... + x[m-1] h, for m blocks. */
  function GhashSum(h: Block, xs: seq<Block>): Block
    decreases |xs|
  {
    if |xs| == 0 then ZERO else Xor(Mul(xs[0], Power(h, |xs|)), GhashSum(h, xs[1..]))
  }

  lemma PowerFromLeft(h: Block, x: Block, k: nat)
    ensures Mul(Mul(x, h), Power(h, k)) == Mul(x, Power(h, k + 1))
  {
    MulAssociates(x, h, Power(h, k));
    MulCommutes(h, Power(h, k));
  }

  // Folding from y is the sum with y's own term added.
  lemma {:induction false} GhashIsHorner(h: Block, xs: seq<Block>, y: Block)
    ensures Ghash(h, xs, y) == Xor(Mul(y, Power(h, |xs|)), GhashSum(h, xs))
    decreases |xs|
  {
    if |xs| == 0 {
      MulUnit(y);
      XorZero(y);
    } else {
      var k := |xs| - 1;
      var z := Mul(Xor(y, xs[0]), h);
      GhashIsHorner(h, xs[1..], z);
      PowerFromLeft(h, Xor(y, xs[0]), k);
      MulBilinear(y, xs[0], Power(h, k + 1));
      XorAssoc(Mul(y, Power(h, k + 1)), Mul(xs[0], Power(h, k + 1)), GhashSum(h, xs[1..]));
    }
  }

  // GHASH of section 6.4: folding from zero.
  lemma GhashFromZero(h: Block, xs: seq<Block>)
    ensures Ghash(h, xs, ZERO) == GhashSum(h, xs)
  {
    GhashIsHorner(h, xs, ZERO);
    MulZero(Power(h, |xs|));
    XorZero(GhashSum(h, xs));
  }

  // Any split of the blocks over several updates gives the same value.
  lemma {:induction false} GhashSplits(h: Block, xs: seq<Block>, zs: seq<Block>, y: Block)
    ensures Ghash(h, xs + zs, y) == Ghash(h, zs, Ghash(h, xs, y))
    decreases |xs|
  {
    if |xs| == 0 {
      assert xs + zs == zs;
    } else {
      assert (xs + zs)[0] == xs[0] && (xs + zs)[1..] == xs[1..] + zs;
      GhashSplits(h, xs[1..], zs, Mul(Xor(y, xs[0]), h));
    }
  }

  // GHASH is linear in the data.
  lemma {:induction false} GhashSumLinear(h: Block, xs: seq<Block>, zs: seq<Block>)
    requires |xs| == |zs|
    ensures GhashSum(h, seq(|xs|, i requires 0 <= i < |xs| => Xor(xs[i], zs[i]))) ==
            Xor(GhashSum(h, xs), GhashSum(h, zs))
    decreases |xs|
  {
    var ws: seq<Block> := seq(|xs|, i requires 0 <= i < |xs| => Xor(xs[i], zs[i]));
    if |xs| == 0 {
      XorZero(ZERO);
    } else {
      assert ws[1..] == seq(|xs| - 1, i requires 0 <= i < |xs| - 1 => Xor(xs[1..][i], zs[1..][i]));
      GhashSumLinear(h, xs[1..], zs[1..]);
      var p := Power(h, |xs|);
      MulBilinear(xs[0], zs[0], p);
      XorSwap(Mul(xs[0], p), Mul(zs[0], p), GhashSum(h, xs[1..]), GhashSum(h, zs[1..]));
    }
  }
}
