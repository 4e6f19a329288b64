/// The CRC-16 of the end-to-end frames (src/safety/e2e.cpp) and what corruption
/// it always catches.
///
/// CRC-16/CCITT-FALSE on a register of 16 bits, most significant first.

module Crc16 {
  import opened Octets

  type Bits = seq<bool>
  type Reg = r: Bits | |r| == 16 witness Falses(16)

  function Falses(n: nat): (z: Bits)
    ensures |z| == n
  {
    seq(n, _ => false)
  }

  function Xor(a: Bits, b: Bits): (r: Bits)
    requires |a| == |b|
    ensures |r| == |a|
  {
    seq(|a|, i requires 0 <= i < |a| => a[i] != b[i])
  }

  const ZERO: Reg := Falses(16)
  const INIT: Reg := [true, true, true, true, true, true, true, true, true, true, true, true, true, true, true, true]
  // 0x1021
  const POLY: Reg := [false, false, false, true, false, false, false, false,
                      false, false, true, false, false, false, false, true]

  function Shl(r: Reg): Reg { r[1..] + [false] }

  // One turn of the inner loop.
  function Turn(r: Reg): Reg { if r[0] then Xor(Shl(r), POLY) else Shl(r) }

  function Turns(r: Reg, n: nat): Reg {
    if n == 0 then r else Turn(Turns(r, n - 1))
  }

  // Most significant bit first.
  function ByteBits(b: octet): (s: Bits)
    ensures |s| == 8
  {
    [b / 128 % 2 == 1, b / 64 % 2 == 1, b / 32 % 2 == 1, b / 16 % 2 == 1,
     b / 8 % 2 == 1, b / 4 % 2 == 1, b / 2 % 2 == 1, b % 2 == 1]
  }

  // b << 8
  function High(b: octet): Reg { ByteBits(b) + Falses(8) }

  // crc16's loop over the data from register r.
  function Crc(r: Reg, data: Bytes): Reg
    decreases |data|
  {
    if |data| == 0 then r else Crc(Turns(Xor(r, High(data[0])), 8), data[1..])
  }

  method ComputeCrc(data: Bytes) returns (crc: Reg)
    ensures crc == Crc(INIT, data)
  {
    crc := INIT;
    var k := 0;
    assert data[0..] == data;
    while k < |data|
      invariant 0 <= k <= |data|
      invariant Crc(INIT, data) == Crc(crc, data[k..])
    {
      ghost var start: Reg := Xor(crc, High(data[k]));
      crc := Xor(crc, High(data[k]));
      for i := 0 to 8
        invariant crc == Turns(start, i)
      {
        if crc[0] {
          crc := Xor(Shl(crc), POLY);
        } else {
          crc := Shl(crc);
        }
      }
      assert data[k..][1..] == data[k + 1..];
      k := k + 1;
    }
    assert |data[k..]| == 0;
  }

  // ---- One message bit at a time ----------------------------------------

  /** The reference: a message bit is added to the top bit before the shift. */
  function StepBit(r: Reg, b: bool): Reg { if r[0] != b then Xor(Shl(r), POLY) else Shl(r) }

  function CrcBits(r: Reg, bits: Bits): Reg
    decreases |bits|
  {
    if |bits| == 0 then r else CrcBits(StepBit(r, bits[0]), bits[1..])
  }

  function BitsOf(data: Bytes): (s: Bits)
    ensures |s| == 8 * |data|
    decreases |data|
  {
    if |data| == 0 then [] else ByteBits(data[0]) + BitsOf(data[1..])
  }

  lemma {:induction false} CrcBitsConcat(r: Reg, a: Bits, b: Bits)
    ensures CrcBits(r, a + b) == CrcBits(CrcBits(r, a), b)
    decreases |a|
  {
    if |a| == 0 {
      assert a + b == b;
    } else {
      assert (a + b)[0] == a[0] && (a + b)[1..] == a[1..] + b;
      CrcBitsConcat(StepBit(r, a[0]), a[1..], b);
    }
  }

  // Message bits waiting in the register move up as it turns.
  lemma TurnWithPending(s: Reg, t: Reg)
    ensures Turn(Xor(s, t)) == Xor(StepBit(s, t[0]), Shl(t))
  {}

  // t is the next |w| message bits, then zeros.
  predicate Pending(t: Reg, w: Bits) {
    && |w| <= 16 && t[..|w|] == w && forall i :: |w| <= i < 16 ==> !t[i]
  }

  lemma {:induction false} TurnsFromLeft(r: Reg, n: nat)
    requires n > 0
    ensures Turns(r, n) == Turns(Turn(r), n - 1)
  {
    if n > 1 { TurnsFromLeft(r, n - 1); }
  }

  lemma {:induction false} TurnsTakeBits(s: Reg, t: Reg, w: Bits)
    requires Pending(t, w)
    ensures Turns(Xor(s, t), |w|) == CrcBits(s, w)
    decreases |w|
  {
    if |w| == 0 {
      assert Xor(s, t) == s;
    } else {
      TurnsFromLeft(Xor(s, t), |w|);
      TurnWithPending(s, t);
      assert t[0] == t[..|w|][0];
      assert Shl(t)[..|w| - 1] == t[..|w|][1..] == w[1..];
      TurnsTakeBits(StepBit(s, t[0]), Shl(t), w[1..]);
    }
  }

  // The byte loop computes the same as taking the bits one by one.
  lemma {:induction false} CrcIsBitwise(r: Reg, data: Bytes)
    ensures Crc(r, data) == CrcBits(r, BitsOf(data))
    decreases |data|
  {
    if |data| > 0 {
      var w, t := ByteBits(data[0]), High(data[0]);
      assert t[..8] == w;
      TurnsTakeBits(r, t, w);
      CrcBitsConcat(r, w, BitsOf(data[1..]));
      CrcIsBitwise(CrcBits(r, w), data[1..]);
    }
  }

  // ---- What the CRC always detects --------------------------------------

  lemma StepLinear(r: Reg, s: Reg, a: bool, b: bool)
    ensures Xor(StepBit(r, a), StepBit(s, b)) == StepBit(Xor(r, s), a != b)
  {}

  // The difference of two registers depends on the difference of the data.
  lemma {:induction false} CrcBitsLinear(r: Reg, s: Reg, a: Bits, b: Bits)
    requires |a| == |b|
    ensures Xor(CrcBits(r, a), CrcBits(s, b)) == CrcBits(Xor(r, s), Xor(a, b))
    decreases |a|
  {
    if |a| > 0 {
      StepLinear(r, s, a[0], b[0]);
      assert Xor(a, b)[1..] == Xor(a[1..], b[1..]);
      CrcBitsLinear(StepBit(r, a[0]), StepBit(s, b[0]), a[1..], b[1..]);
    }
  }

  // Two messages of one length collide exactly when their difference, taken
  // as a message from the zero register, leaves zero.
  lemma {:induction false} CollisionIsZeroSyndrome(a: Bytes, b: Bytes)
    requires |a| == |b|
    ensures Crc(INIT, a) == Crc(INIT, b) <==> CrcBits(ZERO, Xor(BitsOf(a), BitsOf(b))) == ZERO
  {
    CrcIsBitwise(INIT, a);
    CrcIsBitwise(INIT, b);
    CrcBitsLinear(INIT, INIT, BitsOf(a), BitsOf(b));
    assert Xor(INIT, INIT) == ZERO;
    XorIsZero(Crc(INIT, a), Crc(INIT, b));
  }

  lemma XorIsZero(r: Reg, s: Reg)
    ensures Xor(r, s) == ZERO <==> r == s
  {
    if Xor(r, s) == ZERO {
      forall i | 0 <= i < 16 ensures r[i] == s[i] { assert !Xor(r, s)[i]; }
    }
  }

  // Parity of the number of set bits.
  function Odd(bits: Bits): bool
    decreases |bits|
  {
    if |bits| == 0 then false else bits[0] != Odd(bits[1..])
  }

  lemma {:induction false} OddXor(a: Bits, b: Bits)
    requires |a| == |b|
    ensures Odd(Xor(a, b)) == (Odd(a) != Odd(b))
    decreases |a|
  {
    if |a| > 0 {
      assert Xor(a, b)[1..] == Xor(a[1..], b[1..]);
      OddXor(a[1..], b[1..]);
    }
  }

  lemma {:induction false} OddConcat(a: Bits, b: Bits)
    ensures Odd(a + b) == (Odd(a) != Odd(b))
    decreases |a|
  {
    if |a| == 0 {
      assert a + b == b;
    } else {
      assert (a + b)[0] == a[0] && (a + b)[1..] == a[1..] + b;
      OddConcat(a[1..], b);
    }
  }

  lemma {:induction false} OddFalses(n: nat)
    ensures !Odd(Falses(n))
  {
    if n > 0 {
      assert Falses(n)[1..] == Falses(n - 1);
      OddFalses(n - 1);
    }
  }

  lemma {:induction false} PolyPrefixOdd(n: nat)
    requires n <= 16
    ensures Odd(POLY[n..]) == (n <= 3 || 11 <= n <= 15)
    decreases 16 - n
  {
    if n < 16 {
      PolyPrefixOdd(n + 1);
      assert POLY[n..][1..] == POLY[n + 1..] && POLY[n..][0] == POLY[n];
    }
  }

  // The polynomial is a multiple of x + 1, so each step keeps the parity of
  // register and message together.
  lemma StepParity(r: Reg, b: bool)
    ensures Odd(StepBit(r, b)) == (Odd(r) != b)
  {
    assert r == [r[0]] + r[1..];
    OddConcat(r[1..], [false]);
    PolyPrefixOdd(0);
    assert POLY[0..] == POLY;
    OddXor(Shl(r), POLY);
  }

  lemma {:induction false} CrcParity(r: Reg, bits: Bits)
    ensures Odd(CrcBits(r, bits)) == (Odd(r) != Odd(bits))
    decreases |bits|
  {
    if |bits| > 0 {
      StepParity(r, bits[0]);
      CrcParity(StepBit(r, bits[0]), bits[1..]);
    }
  }

  // A step loses nothing: only the zero register turns into zero.
  lemma {:induction false} ZerosKeepNonzero(r: Reg, n: nat)
    requires r != ZERO
    ensures CrcBits(r, Falses(n)) != ZERO
    decreases n
  {
    if n > 0 {
      assert Falses(n)[1..] == Falses(n - 1);
      if StepBit(r, false) == ZERO { StepKeepsNonzero(r); }
      ZerosKeepNonzero(StepBit(r, false), n - 1);
    }
  }

  lemma StepKeepsNonzero(r: Reg)
    requires StepBit(r, false) == ZERO
    ensures r == ZERO
  {
    var s := StepBit(r, false);
    assert !s[15];
    assert !r[0];
    forall i | 1 <= i < 16 ensures !r[i] { assert !s[i - 1] && Shl(r)[i - 1] == r[i]; }
  }

  lemma {:induction false} ZerosKeepZero(n: nat)
    ensures CrcBits(ZERO, Falses(n)) == ZERO
  {
    if n > 0 {
      assert Falses(n)[1..] == Falses(n - 1);
      assert StepBit(ZERO, false) == ZERO;
      ZerosKeepZero(n - 1);
    }
  }

  // Sixteen bits or fewer that bring a register to zero are what it held.
  lemma {:induction false} ShortRunToZero(s: Reg, w: Bits)
    requires |w| <= 16 && CrcBits(s, w) == ZERO
    ensures Pending(s, w)
    decreases |w|
  {
    if |w| > 0 {
      var t := StepBit(s, w[0]);
      ShortRunToZero(t, w[1..]);
      assert !t[15];
      assert s[0] == w[0] && t == Shl(s);
      forall i | 0 <= i < |w| ensures s[i] == w[i] {
        if i > 0 { assert t[i - 1] == s[i] && t[..|w| - 1][i - 1] == w[1..][i - 1]; }
      }
      forall i | |w| <= i < 16 ensures !s[i] { assert t[i - 1] == s[i]; }
    }
  }

  /** The set bits lie within 16 consecutive positions. */
  predicate IsBurst(d: Bits, p: nat) {
    && p <= |d| && (exists i :: 0 <= i < |d| && d[i])
    && forall i :: 0 <= i < |d| && d[i] ==> p <= i < p + 16
  }

  lemma BurstLeavesNonzero(d: Bits, p: nat)
    requires IsBurst(d, p)
    ensures CrcBits(ZERO, d) != ZERO
  {
    var q := if p + 16 <= |d| then p + 16 else |d|;
    var w := d[p..q];
    assert d == Falses(p) + (w + Falses(|d| - q));
    CrcBitsConcat(ZERO, Falses(p), w + Falses(|d| - q));
    ZerosKeepZero(p);
    CrcBitsConcat(ZERO, w, Falses(|d| - q));
    var i :| 0 <= i < |d| && d[i];
    assert w[i - p];
    assert forall j :: 0 <= j < |w| ==> !ZERO[..|w|][j];
    if CrcBits(ZERO, w) == ZERO { ShortRunToZero(ZERO, w); }
    ZerosKeepNonzero(CrcBits(ZERO, w), |d| - q);
  }

  /** Corruption of an odd number of bits, or within 16 consecutive bits, at
      any message length, changes the CRC. */
  lemma {:induction false} CorruptionChangesCrc(a: Bytes, b: Bytes, p: nat)
    requires |a| == |b|
    requires Odd(Xor(BitsOf(a), BitsOf(b))) || IsBurst(Xor(BitsOf(a), BitsOf(b)), p)
    ensures Crc(INIT, a) != Crc(INIT, b)
  {
    var d := Xor(BitsOf(a), BitsOf(b));
    CollisionIsZeroSyndrome(a, b);
    if Odd(d) {
      CrcParity(ZERO, d);
      OddFalses(16);
    } else {
      BurstLeavesNonzero(d, p);
    }
  }
}
