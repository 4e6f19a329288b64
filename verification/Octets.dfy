/// Bytes as numbers, and little-endian numbers, shared by the wire formats.

module Octets {
  type octet = x: nat | x < 256
  type Bytes = seq<octet>

  datatype Option<+T> = None | Some(value: T)

  function Pow256(k: nat): (r: nat)
    ensures r > 0
  {
    if k == 0 then 1 else 256 * Pow256(k - 1)
  }

  function Pow2(n: nat): nat { if n == 0 then 1 else 2 * Pow2(n - 1) }

  lemma {:induction false} StepUp(w: nat, p: nat, q: nat)
    ensures p < q ==> w * p + w <= w * q
    decreases q
  {
    if q > 0 {
      assert w * q == w * (q - 1) + w;
      if p < q - 1 { StepUp(w, p, q - 1); }
    }
  }

  lemma {:induction false} QuotientIs(n: nat, d: nat, a: nat, r: nat)
    requires d > 0 && n == a * d + r && r < d
    ensures n / d == a && n % d == r
  {
    var q := n / d;
    assert n == q * d + n % d;
    StepUp(d, q, a);
    StepUp(d, a, q);
  }

  lemma {:induction false} DivTwice(n: nat, p: nat)
    requires p > 0
    ensures n / 256 / p == n / (256 * p) == n / p / 256
  {
    var q, r := n / 256, n % 256;
    var a, b := q / p, q % p;
    assert n == 256 * (a * p + b) + r == a * (256 * p) + (256 * b + r);
    QuotientIs(n, 256 * p, a, 256 * b + r);
    DivTwiceOther(n, p);
  }

  lemma Regroup(a: nat, b: nat, p: nat)
    ensures (256 * a + b) * p == a * (256 * p) + b * p
  {}

  lemma {:induction false} DivTwiceOther(n: nat, p: nat)
    requires p > 0
    ensures n / p / 256 == n / (256 * p)
  {
    var q, r := n / p, n % p;
    var a, b := q / 256, q % 256;
    assert n == q * p + r;
    Regroup(a, b, p);
    StepUp(p, b, 256);
    assert p * b == b * p;
    QuotientIs(n, 256 * p, a, b * p + r);
  }

  // ---- Numbers in bytes -------------------------------------------------

  // The little-endian numbers of two and of four bytes at an offset.
  function Two(b: Bytes, at: nat): nat
    requires at + 2 <= |b|
  {
    b[at] as int + b[at + 1] as int * 0x100
  }

  function Four(b: Bytes, at: nat): nat
    requires at + 4 <= |b|
  {
    b[at] as int + b[at + 1] as int * 0x100 + b[at + 2] as int * 0x1_0000 + b[at + 3] as int * 0x100_0000
  }

  // The low k bytes of n, lowest first.
  function LE(n: nat, k: nat): (bs: Bytes)
    ensures |bs| == k
  {
    if k == 0 then [] else [n % 256] + LE(n / 256, k - 1)
  }

  function UnLE(bs: Bytes): nat {
    if |bs| == 0 then 0 else bs[0] + 256 * UnLE(bs[1..])
  }

  lemma {:induction false} UnLEInverts(n: nat, k: nat)
    requires n < Pow256(k)
    ensures UnLE(LE(n, k)) == n
  {
    if k > 0 {
      assert LE(n, k)[1..] == LE(n / 256, k - 1);
      UnLEInverts(n / 256, k - 1);
    }
  }

  lemma TwoAt(b: Bytes, at: nat, n: nat)
    requires at + 2 <= |b| && b[at..at + 2] == LE(n, 2) && n < 0x1_0000
    ensures Two(b, at) == n
  {
    assert LE(n, 2) == [n % 256] + ([n / 256 % 256] + LE(n / 256 / 256, 0));
    var s := b[at..at + 2];
    assert b[at] == s[0] && b[at + 1] == s[1];
  }

  lemma FourAt(b: Bytes, at: nat, n: nat)
    requires at + 4 <= |b| && b[at..at + 4] == LE(n, 4) && n < 0x1_0000_0000
    ensures Four(b, at) == n
  {
    var m := n / 256 / 256;
    assert LE(n, 4) == [n % 256] + ([n / 256 % 256] + LE(m, 2));
    assert LE(m, 2) == [m % 256] + ([m / 256 % 256] + LE(m / 256 / 256, 0));
    var s := b[at..at + 4];
    assert b[at] == s[0] && b[at + 1] == s[1] && b[at + 2] == s[2] && b[at + 3] == s[3];
  }

  lemma LowDigit(b: octet, u: nat)
    ensures (b + 256 * u) % 256 == b && (b + 256 * u) / 256 == u
  {}

  lemma {:induction false} LEInverts(bs: Bytes)
    ensures LE(UnLE(bs), |bs|) == bs && UnLE(bs) < Pow256(|bs|)
    decreases |bs|
  {
    if |bs| > 0 {
      LEInverts(bs[1..]);
      LowDigit(bs[0], UnLE(bs[1..]));
    }
  }

  lemma LowPart(lo: nat, hi: nat, p: nat)
    ensures lo + (256 * p) * hi == lo % 256 + 256 * (lo / 256 + p * hi)
    ensures lo < 256 * p ==> lo / 256 < p
  {}

  lemma {:induction false} LEJoins(lo: nat, hi: nat, j: nat, k: nat)
    requires lo < Pow256(j)
    ensures LE(lo + Pow256(j) * hi, j + k) == LE(lo, j) + LE(hi, k)
    decreases j
  {
    if j > 0 {
      var p := Pow256(j - 1);
      var n := lo + Pow256(j) * hi;
      LowPart(lo, hi, p);
      assert Pow256(j) == 256 * p && n == lo % 256 + 256 * (lo / 256 + p * hi);
      assert LE(n, j + k) == [n % 256] + LE(n / 256, j - 1 + k) && LE(lo, j) == [lo % 256] + LE(lo / 256, j - 1);
      hide LE, Pow256;
      LowDigit(lo % 256, lo / 256 + p * hi);
      LEJoins(lo / 256, hi, j - 1, k);
    } else {
      LowPart(lo, hi, 1);
      assert LE(lo, 0) == [] && [] + LE(hi, k) == LE(hi, k) && lo + Pow256(0) * hi == hi;
    }
  }
}
