/// Bits of an unsigned word held as a natural number, lowest bit first.

module Bits {
  import opened Octets

  predicate Bit(w: nat, k: nat) {
    if k == 0 then w % 2 == 1 else Bit(w / 2, k - 1)
  }

  // `w |= 1u << k`
  function SetBit(w: nat, k: nat): nat {
    if k == 0 then (if w % 2 == 1 then w else w + 1)
    else w % 2 + 2 * SetBit(w / 2, k - 1)
  }

  lemma {:induction false} SetBitGet(w: nat, k: nat, j: nat)
    ensures Bit(SetBit(w, k), j) <==> j == k || Bit(w, j)
  {
    if k > 0 {
      var v := SetBit(w / 2, k - 1);
      assert (w % 2 + 2 * v) % 2 == w % 2 && (w % 2 + 2 * v) / 2 == v;
      if j > 0 { SetBitGet(w / 2, k - 1, j - 1); }
    } else if j > 0 {
      assert SetBit(w, 0) / 2 == w / 2;
    }
  }

  lemma {:induction false} SetBitFits(w: nat, k: nat, n: nat)
    requires w < Pow2(n) && k < n
    ensures SetBit(w, k) < Pow2(n)
  {
    var half, v := Pow2(n - 1), w / 2;
    assert Pow2(n) == 2 * half && w == 2 * v + w % 2;
    hide Pow2;
    assert v < half;
    if k > 0 {
      SetBitFits(v, k - 1, n - 1);
      assert SetBit(w, k) == w % 2 + 2 * SetBit(v, k - 1);
    }
  }

  lemma {:induction false} ZeroHasNoBits(k: nat)
    ensures !Bit(0, k)
  {
    if k > 0 { ZeroHasNoBits(k - 1); }
  }
}
