/// AES-GCM without associated data (src/security/crypto/gcm.cpp), for any
/// block cipher: the byte loops against the field of Gf128, and what sealing
/// and opening promise (NIST SP 800-38D, sections 6.2, 6.5 and 7.1).

module Gcm {
  import opened Gf128
  import Octets
  import ByteWords

  type byte = bv8
  type Bytes = seq<byte>

  // ---- Bytes as bits, most significant first ----------------------------

  function Mask(j: nat): byte
    requires j < 8
  {
    match j
    case 0 => 0x80 case 1 => 0x40 case 2 => 0x20 case 3 => 0x10
    case 4 => 0x08 case 5 => 0x04 case 6 => 0x02 case 7 => 0x01
  }

  predicate BitAt(b: byte, j: nat)
    requires j < 8
  {
    b & Mask(j) != 0
  }

  function BitsOf(s: Bytes): Block
    requires |s| == 16
  {
    seq(N, i requires 0 <= i < N => BitAt(s[i / 8], i % 8))
  }

  lemma {:induction false} BitOfXor(a: byte, b: byte, j: nat)
    requires j < 8
    ensures BitAt(a ^ b, j) == (BitAt(a, j) != BitAt(b, j))
  {
    MaskIsOneBit(j);
    hide Mask;
    XorUnderMask(a, b, Mask(j));
  }

  lemma MaskIsOneBit(j: nat)
    requires j < 8
    ensures var m := Mask(j);
      m == 0x80 || m == 0x40 || m == 0x20 || m == 0x10 || m == 0x08 || m == 0x04 || m == 0x02 || m == 0x01
  {}

  lemma XorUnderMask(a: byte, b: byte, m: byte)
    requires m == 0x80 || m == 0x40 || m == 0x20 || m == 0x10 || m == 0x08 || m == 0x04 || m == 0x02 || m == 0x01
    ensures ((a ^ b) & m != 0) == ((a & m != 0) != (b & m != 0))
  {}

  // A byte shifted right, with the last bit of the byte before it coming in.
  lemma BitOfShift(before: byte, b: byte, j: nat)
    requires j < 8
    ensures BitAt((b >> 1) | ((before & 1) << 7), j) == if j == 0 then BitAt(before, 7) else BitAt(b, j - 1)
    ensures BitAt(b >> 1, j) == (j > 0 && BitAt(b, j - 1))
  {}

  lemma BitOfR(j: nat)
    requires j < 8
    ensures BitAt(0xE1, j) == InR(j)
  {}

  // A byte is its bits.
  lemma ByteFromBits(a: byte, b: byte)
    requires forall j: nat :: j < 8 ==> BitAt(a, j) == BitAt(b, j)
    ensures a == b
  {
    assert BitAt(a, 0) == BitAt(b, 0) && BitAt(a, 1) == BitAt(b, 1) && BitAt(a, 2) == BitAt(b, 2);
    assert BitAt(a, 3) == BitAt(b, 3) && BitAt(a, 4) == BitAt(b, 4) && BitAt(a, 5) == BitAt(b, 5);
    assert BitAt(a, 6) == BitAt(b, 6) && BitAt(a, 7) == BitAt(b, 7);
    SameBits(a, b);
  }

  lemma SameBits(a: byte, b: byte)
    requires (a & 0x80 != 0) == (b & 0x80 != 0) && (a & 0x40 != 0) == (b & 0x40 != 0)
    requires (a & 0x20 != 0) == (b & 0x20 != 0) && (a & 0x10 != 0) == (b & 0x10 != 0)
    requires (a & 0x08 != 0) == (b & 0x08 != 0) && (a & 0x04 != 0) == (b & 0x04 != 0)
    requires (a & 0x02 != 0) == (b & 0x02 != 0) && (a & 0x01 != 0) == (b & 0x01 != 0)
    ensures a == b
  {}

  lemma BitsOfIsInjective(s: Bytes, t: Bytes)
    requires |s| == |t| == 16 && BitsOf(s) == BitsOf(t)
    ensures s == t
  {
    forall k | 0 <= k < 16 ensures s[k] == t[k] {
      forall j: nat | j < 8 ensures BitAt(s[k], j) == BitAt(t[k], j) {
        assert (8 * k + j) / 8 == k && (8 * k + j) % 8 == j;
        assert BitsOf(s)[8 * k + j] == BitsOf(t)[8 * k + j];
      }
      ByteFromBits(s[k], t[k]);
    }
  }

  // ---- The loops of gf128_mul -------------------------------------------

  function XorBytes(a: Bytes, b: Bytes): (r: Bytes)
    requires |a| <= |b|
    ensures |r| == |a|
  {
    seq(|a|, i requires 0 <= i < |a| => a[i] ^ b[i])
  }

  method XorInto(z: array<byte>, v: Bytes)
    requires z.Length == 16 && |v| == 16
    modifies z
    ensures z[..] == XorBytes(old(z[..]), v)
  {
    ghost var was := z[..];
    ghost var goal := XorBytes(was, v);
    for k := 0 to 16
      invariant forall j :: 0 <= j < k ==> z[j] == goal[j]
      invariant forall j :: k <= j < 16 ==> z[j] == was[j]
    {
      z[k] := z[k] ^ v[k];
    }
  }

  lemma XorBytesIsXor(a: Bytes, b: Bytes)
    requires |a| == |b| == 16
    ensures BitsOf(XorBytes(a, b)) == Xor(BitsOf(a), BitsOf(b))
  {
    forall i | 0 <= i < N ensures BitsOf(XorBytes(a, b))[i] == (BitsOf(a)[i] != BitsOf(b)[i]) {
      assert i == 8 * (i / 8) + i % 8;
      XorBytesBit(a, b, i / 8, i % 8);
    }
  }

  lemma XorBytesBit(a: Bytes, b: Bytes, k: nat, j: nat)
    requires |a| == |b| == 16 && k < 16 && j < 8
    ensures BitsOf(XorBytes(a, b))[8 * k + j] == (BitsOf(a)[8 * k + j] != BitsOf(b)[8 * k + j])
  {
    BitOfXor(a[k], b[k], j);
    BitAtIndex(a, k, j);
    BitAtIndex(b, k, j);
    BitAtIndex(XorBytes(a, b), k, j);
  }

  // v := v * x
  method TimesXInPlace(v: array<byte>)
    requires v.Length == 16
    modifies v
    ensures BitsOf(v[..]) == TimesX(old(BitsOf(v[..])))
  {
    ghost var was := v[..];
    var lsb := v[15] & 1 != 0;
    var k := 15;
    while k > 0
      invariant 0 <= k <= 15
      invariant forall j :: 0 <= j <= k ==> v[j] == was[j]
      invariant forall j :: k < j < 16 ==> v[j] == (was[j] >> 1) | ((was[j - 1] & 1) << 7)
    {
      v[k] := (v[k] >> 1) | ((v[k - 1] & 1) << 7);
      k := k - 1;
    }
    v[0] := v[0] >> 1;
    if lsb {
      v[0] := v[0] ^ 0xE1;
    }
    assert lsb == BitsOf(was)[N - 1];
    ShiftedBytes(was, v[..]);
  }

  lemma BitAtIndex(s: Bytes, b: nat, j: nat)
    requires |s| == 16 && b < 16 && j < 8
    ensures BitsOf(s)[8 * b + j] == BitAt(s[b], j)
  {
    assert (8 * b + j) / 8 == b && (8 * b + j) % 8 == j;
  }

  lemma ShiftedBytes(was: Bytes, now: Bytes)
    requires |was| == |now| == 16
    requires forall j :: 0 < j < 16 ==> now[j] == (was[j] >> 1) | ((was[j - 1] & 1) << 7)
    requires now[0] == if BitsOf(was)[N - 1] then (was[0] >> 1) ^ 0xE1 else was[0] >> 1
    ensures BitsOf(now) == TimesX(BitsOf(was))
  {
    forall i | 0 <= i < N ensures BitsOf(now)[i] == TimesX(BitsOf(was))[i] {
      assert i == 8 * (i / 8) + i % 8;
      if i < 8 { ShiftedFirst(was, now, i); } else { ShiftedLater(was, now, i / 8, i % 8); }
    }
  }

  lemma ShiftedFirst(was: Bytes, now: Bytes, j: nat)
    requires |was| == |now| == 16 && j < 8
    requires now[0] == if BitsOf(was)[N - 1] then (was[0] >> 1) ^ 0xE1 else was[0] >> 1
    ensures BitsOf(now)[j] == TimesX(BitsOf(was))[j]
  {
    BitAtIndex(was, 15, 7);
    hide BitAt, BitsOf;
    BitOfShift(0, was[0], j);
    BitOfXor(was[0] >> 1, 0xE1, j);
    BitOfR(j);
    BitAtIndex(now, 0, j);
    if j > 0 { BitAtIndex(was, 0, j - 1); }
  }

  lemma ShiftedLater(was: Bytes, now: Bytes, b: nat, j: nat)
    requires |was| == |now| == 16 && 1 <= b < 16 && j < 8
    requires now[b] == (was[b] >> 1) | ((was[b - 1] & 1) << 7)
    ensures BitsOf(now)[8 * b + j] == TimesX(BitsOf(was))[8 * b + j]
  {
    hide BitAt, BitsOf;
    BitOfShift(was[b - 1], was[b], j);
    BitAtIndex(now, b, j);
    if j == 0 { BitAtIndex(was, b - 1, 7); } else { BitAtIndex(was, b, j - 1); }
  }

  // memcpy of one block.
  method Copy(dst: array<byte>, src: array<byte>)
    requires dst.Length == 16 && src.Length == 16
    modifies dst
    ensures dst[..] == old(src[..])
  {
    ghost var was := src[..];
    for k := 0 to 16
      invariant forall j :: 0 <= j < k ==> dst[j] == was[j]
      invariant dst != src ==> src[..] == was
      invariant dst == src ==> dst[..] == was
    {
      dst[k] := src[k];
    }
  }

  lemma ZeroBytes(s: Bytes)
    requires |s| == 16 && forall k :: 0 <= k < 16 ==> s[k] == 0
    ensures BitsOf(s) == ZERO
  {
    forall i | 0 <= i < N ensures !BitsOf(s)[i] {}
  }

  // One turn of the outer loop.
  method MulStep(z: array<byte>, v: array<byte>, bit: bool)
    requires z.Length == 16 && v.Length == 16 && z != v
    modifies z, v
    ensures BitsOf(z[..]) == if bit then Xor(old(BitsOf(z[..])), old(BitsOf(v[..]))) else old(BitsOf(z[..]))
    ensures BitsOf(v[..]) == TimesX(old(BitsOf(v[..])))
  {
    ghost var zs := z[..];
    if bit {
      XorBytesIsXor(zs, v[..]);
      XorInto(z, v[..]);
    }
    zs := z[..];
    TimesXInPlace(v);
    assert z[..] == zs;
  }

  // Bit i of a block, most significant first: x[i / 8] & (0x80 >> (i % 8)).
  method TestBit(x: array<byte>, i: nat) returns (bit: bool)
    requires x.Length == 16 && i < N
    ensures bit == BitsOf(x[..])[i]
  {
    bit := x[i / 8] & Mask(i % 8) != 0;
    assert bit == BitAt(x[..][i / 8], i % 8);
  }

  method MulLoop(x: array<byte>, z: array<byte>, v: array<byte>)
    requires x.Length == 16 && z.Length == 16 && v.Length == 16 && z != v && z != x && v != x
    requires BitsOf(z[..]) == ZERO
    modifies z, v
    ensures BitsOf(z[..]) == Mul(BitsOf(x[..]), old(BitsOf(v[..])))
  {
    ghost var was := x[..];
    ghost var xs, ys := BitsOf(was), BitsOf(v[..]);
    for i := 0 to N
      invariant BitsOf(z[..]) == MulSteps(xs, ys, i)
      invariant BitsOf(v[..]) == TimesXPow(ys, i)
      invariant x[..] == was
    {
      var bit := TestBit(x, i);
      MulStep(z, v, bit);
      assert x[..] == was;
    }
  }

  method Gf128Mul(x: array<byte>, y: array<byte>, out: array<byte>)
    requires x.Length == 16 && y.Length == 16 && out.Length == 16
    modifies out
    ensures BitsOf(out[..]) == Mul(old(BitsOf(x[..])), old(BitsOf(y[..])))
  {
    var z := new byte[16](_ => 0);
    var v := new byte[16];
    Copy(v, y);
    ZeroBytes(z[..]);
    MulLoop(x, z, v);
    Copy(out, z);
  }

  // ---- GHASH over bytes -------------------------------------------------

  // The first n whole blocks of data.
  function WholeBlocks(data: Bytes, n: nat): (bs: seq<Block>)
    requires 16 * n <= |data|
    ensures |bs| == n
  {
    seq(n, b requires 0 <= b < n => BitsOf(data[16 * b..16 * b + 16]))
  }

  method GhashUpdate(h: array<byte>, data: Bytes, blocks: nat, y: array<byte>)
    requires h.Length == 16 && y.Length == 16 && h != y && 16 * blocks <= |data|
    modifies y
    ensures BitsOf(y[..]) == Ghash(BitsOf(h[..]), WholeBlocks(data, blocks), old(BitsOf(y[..])))
  {
    ghost var hs, all, y0 := BitsOf(h[..]), WholeBlocks(data, blocks), BitsOf(y[..]);
    for b := 0 to blocks
      invariant BitsOf(h[..]) == hs
      invariant Ghash(hs, all, y0) == Ghash(hs, all[b..], BitsOf(y[..]))
    {
      GhashBlock(h, data[16 * b..16 * b + 16], y);
      assert all[b..][0] == all[b] && all[b..][1..] == all[b + 1..];
    }
    assert |all[blocks..]| == 0;
  }

  // y := (y + block) * h
  method GhashBlock(h: array<byte>, data: Bytes, y: array<byte>)
    requires h.Length == 16 && y.Length == 16 && h != y && |data| == 16
    modifies y
    ensures BitsOf(y[..]) == Mul(Xor(old(BitsOf(y[..])), BitsOf(data)), BitsOf(h[..]))
    ensures h[..] == old(h[..])
  {
    ghost var hs := h[..];
    XorBytesIsXor(y[..], data);
    XorInto(y, data);
    assert h[..] == hs;
    var block := new byte[16];
    Gf128Mul(y, h, block);
    Copy(y, block);
    assert h[..] == hs;
  }

  // ---- The counter ------------------------------------------------------

  const U32: nat := 0x1_0000_0000

  // Add one to byte i, and carry into the byte before it down to byte 12.
  function IncFrom(c: Bytes, i: nat): (r: Bytes)
    requires |c| == 16 && i < 16
    ensures |r| == 16
    decreases i
  {
    if i < 12 then c
    else
      var d := c[i := c[i] + 1];
      if d[i] != 0 then d else IncFrom(d, i - 1)
  }

  function Inc32(c: Bytes): (r: Bytes)
    requires |c| == 16
    ensures |r| == 16
  {
    IncFrom(c, 15)
  }

  // Bytes 12 to i as a big-endian number.
  function ValueTo(c: Bytes, i: nat): nat
    requires |c| == 16 && i < 16
  {
    if i < 12 then 0 else 256 * ValueTo(c, i - 1) + c[i] as nat
  }

  function Range(i: nat): nat { if i < 12 then 1 else 256 * Range(i - 1) }

  // The last 32 bits of a counter block as a number.
  function CounterOf(c: Bytes): nat
    requires |c| == 16
  {
    ValueTo(c, 15)
  }

  lemma ByteInc(b: byte)
    ensures (b + 1) as nat == (b as nat + 1) % 256
    ensures b + 1 == 0 <==> b as nat == 255
  {}

  lemma {:induction false} ValueInRange(c: Bytes, i: nat)
    requires |c| == 16 && i < 16
    ensures ValueTo(c, i) < Range(i)
  {
    if i >= 12 { ValueInRange(c, i - 1); }
  }

  lemma {:induction false} ValueIsLocal(c: Bytes, d: Bytes, i: nat)
    requires |c| == |d| == 16 && i < 16 && c[..i + 1] == d[..i + 1]
    ensures ValueTo(c, i) == ValueTo(d, i)
  {
    if i >= 12 {
      assert c[i] == c[..i + 1][i] == d[i];
      assert c[..i] == c[..i + 1][..i] == d[..i];
      ValueIsLocal(c, d, i - 1);
    }
  }

  // The bytes before the counter and after the carry stay.
  lemma {:induction false} IncFromKeeps(c: Bytes, i: nat)
    requires |c| == 16 && 11 <= i < 16
    ensures IncFrom(c, i)[..12] == c[..12] && IncFrom(c, i)[i + 1..] == c[i + 1..]
    decreases i
  {
    if i >= 12 {
      var d := c[i := c[i] + 1];
      assert d[..12] == c[..12] && d[i + 1..] == c[i + 1..];
      if d[i] == 0 {
        IncFromKeeps(d, i - 1);
        var e := IncFrom(d, i - 1);
        assert e[i + 1..] == e[i..][1..] && d[i + 1..] == d[i..][1..];
      }
    }
  }

  // One byte of the addition, without and with a carry.
  lemma IncByte(c: Bytes, d: Bytes, i: nat)
    requires |c| == |d| == 16 && 12 <= i < 16 && d == c[i := c[i] + 1]
    ensures ValueTo(d, i - 1) == ValueTo(c, i - 1) < Range(i - 1)
    ensures d[i] as nat == (c[i] as nat + 1) % 256
    ensures d[i] != 0 ==> ValueTo(d, i) == ValueTo(c, i) + 1 < Range(i)
    ensures d[i] == 0 ==> ValueTo(c, i) + 1 == 256 * (ValueTo(c, i - 1) + 1)
  {
    hide Range;
    ByteInc(c[i]);
    ValueIsLocal(c, d, i - 1);
    ValueInRange(c, i - 1);
    RangeStep(i);
  }

  lemma RangeStep(i: nat)
    requires i >= 12
    ensures Range(i) == 256 * Range(i - 1)
  {}

  lemma {:induction false} IncFromCounts(c: Bytes, i: nat)
    requires |c| == 16 && 11 <= i < 16
    ensures ValueTo(IncFrom(c, i), i) == if ValueTo(c, i) + 1 == Range(i) then 0 else ValueTo(c, i) + 1
    decreases i
  {
    if i >= 12 {
      var d := c[i := c[i] + 1];
      IncByte(c, d, i);
      if d[i] == 0 { Carried(d, i); }
    }
  }

  lemma {:induction false} Carried(d: Bytes, i: nat)
    requires |d| == 16 && 12 <= i < 16 && d[i] == 0
    ensures ValueTo(IncFrom(d, i - 1), i) ==
            256 * (if ValueTo(d, i - 1) + 1 == Range(i - 1) then 0 else ValueTo(d, i - 1) + 1)
    decreases i, 0
  {
    IncFromCounts(d, i - 1);
    IncFromKeeps(d, i - 1);
    var e := IncFrom(d, i - 1);
    assert e[i] == e[i..][0] == d[i..][0] == 0;
  }

  lemma Inc32Counts(c: Bytes)
    requires |c| == 16
    ensures CounterOf(c) < U32 && CounterOf(Inc32(c)) == (CounterOf(c) + 1) % U32
    ensures Inc32(c)[..12] == c[..12]
  {
    assert Range(15) == U32;
    ValueInRange(c, 15);
    IncFromCounts(c, 15);
    IncFromKeeps(c, 15);
  }

  method Inc32InPlace(counter: array<byte>)
    requires counter.Length == 16
    modifies counter
    ensures counter[..] == Inc32(old(counter[..]))
  {
    var i := 15;
    while i >= 12
      invariant 11 <= i <= 15
      invariant IncFrom(counter[..], i) == Inc32(old(counter[..]))
    {
      ghost var was := counter[..];
      counter[i] := counter[i] + 1;
      assert counter[..] == was[i := was[i] + 1];
      if counter[i] != 0 { break; }
      i := i - 1;
    }
  }

  function IncTimes(c: Bytes, k: nat): (r: Bytes)
    requires |c| == 16
    ensures |r| == 16
  {
    if k == 0 then c else Inc32(IncTimes(c, k - 1))
  }

  lemma ModSucc(a: nat)
    ensures (a % U32 + 1) % U32 == (a + 1) % U32
  {
    ModAdd(1, a);
  }

  lemma {:induction false} IncTimesCounts(c: Bytes, k: nat)
    requires |c| == 16
    ensures CounterOf(IncTimes(c, k)) == (CounterOf(c) + k) % U32
    ensures IncTimes(c, k)[..12] == c[..12]
  {
    if k > 0 {
      IncTimesCounts(c, k - 1);
      Inc32Counts(IncTimes(c, k - 1));
      ModSucc(CounterOf(c) + k - 1);
    } else {
      Inc32Counts(c);
    }
  }

  // Two counter blocks of one nonce are equal only a whole cycle apart.
  lemma CounterBlocksRepeat(c: Bytes, i: nat, j: nat)
    requires |c| == 16
    ensures IncTimes(c, i) == IncTimes(c, j) <==> i % U32 == j % U32
  {
    IncTimesCounts(c, i);
    IncTimesCounts(c, j);
    Inc32Counts(c);
    ModShift(CounterOf(c), i, j);
    if i % U32 == j % U32 {
      var a, b := IncTimes(c, i), IncTimes(c, j);
      CounterDecides(a, b);
    }
  }

  lemma ModIs(x: nat, q: nat, r: nat)
    requires x == U32 * q + r && r < U32
    ensures x % U32 == r
  {}

  lemma ModShift(v: nat, i: nat, j: nat)
    requires v < U32
    ensures (v + i) % U32 == (v + j) % U32 <==> i % U32 == j % U32
  {
    ModAdd(v, i);
    ModAdd(v, j);
  }

  lemma ModAdd(v: nat, i: nat)
    requires v < U32
    ensures (v + i) % U32 == if v + i % U32 < U32 then v + i % U32 else v + i % U32 - U32
  {
    var q, r := i / U32, i % U32;
    if v + r < U32 { ModIs(v + i, q, v + r); } else { ModIs(v + i, q + 1, v + r - U32); }
  }

  lemma {:induction false} ValueDecides(c: Bytes, d: Bytes, i: nat)
    requires |c| == |d| == 16 && i < 16 && ValueTo(c, i) == ValueTo(d, i)
    ensures forall k :: 12 <= k <= i ==> c[k] == d[k]
  {
    if i >= 12 {
      DigitDecides(ValueTo(c, i - 1), c[i], ValueTo(d, i - 1), d[i]);
      ValueDecides(c, d, i - 1);
    }
  }

  lemma DigitDecides(u: nat, a: byte, v: nat, b: byte)
    requires 256 * u + a as nat == 256 * v + b as nat
    ensures u == v && a == b
  {
    assert a as nat < 256 && b as nat < 256;
    assert u == v;
    assert (a as nat) as byte == a && (b as nat) as byte == b;
  }

  lemma CounterDecides(c: Bytes, d: Bytes)
    requires |c| == |d| == 16 && c[..12] == d[..12] && CounterOf(c) == CounterOf(d)
    ensures c == d
  {
    ValueDecides(c, d, 15);
    forall k | 0 <= k < 12 ensures c[k] == d[k] { assert c[k] == c[..12][k]; }
  }

  // ---- Counter mode -----------------------------------------------------

  /** Any block cipher under a fixed key. */
  ghost predicate IsCipher(enc: Bytes -> Bytes) {
    forall b :: |b| == 16 ==> |enc(b)| == 16
  }

  function ChunkSize(s: Bytes): nat { if |s| < 16 then |s| else 16 }

  ghost function Gctr(enc: Bytes -> Bytes, c: Bytes, s: Bytes): (r: Bytes)
    requires IsCipher(enc) && |c| == 16
    ensures |r| == |s|
    decreases |s|
  {
    if |s| == 0 then []
    else XorBytes(s[..ChunkSize(s)], enc(c)) + Gctr(enc, Inc32(c), s[ChunkSize(s)..])
  }

  lemma XorTwice(a: Bytes, k: Bytes)
    requires |a| <= |k|
    ensures XorBytes(XorBytes(a, k), k) == a
  {
    forall i | 0 <= i < |a| ensures (a[i] ^ k[i]) ^ k[i] == a[i] {}
  }

  lemma {:induction false} GctrIsItsOwnInverse(enc: Bytes -> Bytes, c: Bytes, s: Bytes)
    requires IsCipher(enc) && |c| == 16
    ensures Gctr(enc, c, Gctr(enc, c, s)) == s
    decreases |s|
  {
    if |s| > 0 {
      var n := ChunkSize(s);
      var t := Gctr(enc, c, s);
      assert t[..n] == XorBytes(s[..n], enc(c)) && t[n..] == Gctr(enc, Inc32(c), s[n..]);
      XorTwice(s[..n], enc(c));
      GctrIsItsOwnInverse(enc, Inc32(c), s[n..]);
      assert s[..n] + s[n..] == s;
    }
  }

  lemma {:induction false} IncTimesShift(c: Bytes, k: nat)
    requires |c| == 16
    ensures IncTimes(Inc32(c), k) == IncTimes(c, k + 1)
  {
    if k > 0 { IncTimesShift(c, k - 1); }
  }

  // Byte j of block b is masked with byte j of the cipher of counter block b.
  lemma {:induction false} GctrAt(enc: Bytes -> Bytes, c: Bytes, s: Bytes, b: nat, j: nat)
    requires IsCipher(enc) && |c| == 16 && j < 16 && 16 * b + j < |s|
    ensures Gctr(enc, c, s)[16 * b + j] == s[16 * b + j] ^ enc(IncTimes(c, b))[j]
    decreases b
  {
    hide Gctr, Inc32;
    if b == 0 {
      GctrHead(enc, c, s, j);
    } else {
      GctrTail(enc, c, s, 16 * b + j);
      GctrAt(enc, Inc32(c), s[16..], b - 1, j);
      IncTimesShift(c, b - 1);
    }
  }

  lemma GctrHead(enc: Bytes -> Bytes, c: Bytes, s: Bytes, j: nat)
    requires IsCipher(enc) && |c| == 16 && j < |s| && j < 16
    ensures Gctr(enc, c, s)[j] == s[j] ^ enc(c)[j]
  {
    var x := XorBytes(s[..ChunkSize(s)], enc(c));
    assert Gctr(enc, c, s) == x + Gctr(enc, Inc32(c), s[ChunkSize(s)..]);
    assert Gctr(enc, c, s)[j] == x[j] && s[..ChunkSize(s)][j] == s[j];
  }

  lemma GctrTail(enc: Bytes -> Bytes, c: Bytes, s: Bytes, p: nat)
    requires IsCipher(enc) && |c| == 16 && 16 <= p < |s|
    ensures Gctr(enc, c, s)[p] == Gctr(enc, Inc32(c), s[16..])[p - 16] && s[p] == s[16..][p - 16]
  {
    var x := XorBytes(s[..16], enc(c));
    assert Gctr(enc, c, s) == x + Gctr(enc, Inc32(c), s[16..]);
  }

  method GctrInto(enc: Bytes -> Bytes, icb: Bytes, input: Bytes, out: array<byte>)
    requires IsCipher(enc) && |icb| == 16 && out.Length == |input|
    modifies out
    ensures out[..] == Gctr(enc, icb, input)
  {
    var counter := new byte[16](i requires 0 <= i < 16 => icb[i]);
    assert counter[..] == icb;
    var off := 0;
    assert input[0..] == input;
    while off < |input|
      invariant 0 <= off <= |input|
      invariant out[..off] + Gctr(enc, counter[..], input[off..]) == Gctr(enc, icb, input)
    {
      off := GctrChunk(enc, counter, input, off, out);
    }
    assert out[..off] == out[..] && |input[off..]| == 0;
  }

  // One turn of the loop: up to 16 bytes, then the next counter block.
  method GctrChunk(enc: Bytes -> Bytes, counter: array<byte>, input: Bytes, off: nat, out: array<byte>)
    returns (off': nat)
    requires IsCipher(enc) && counter.Length == 16 && out.Length == |input| && off < |input| && counter != out
    modifies out, counter
    ensures off < off' <= |input|
    ensures out[..off'] + Gctr(enc, counter[..], input[off'..]) ==
            old(out[..off]) + Gctr(enc, old(counter[..]), input[off..])
  {
    ghost var done, rest, c := out[..off], input[off..], counter[..];
    var ks := enc(counter[..]);
    var n := if |input| - off < 16 then |input| - off else 16;
    XorStretch(out, off, input, ks, n);
    off' := off + n;
    assert counter[..] == c;
    ghost var now := out[..off'];
    assert now == done + XorBytes(rest[..n], ks) by {
      assert rest[..n] == input[off..off + n];
      assert now == out[..off] + out[off..off + n];
    }
    Inc32InPlace(counter);
    assert out[..off'] == now;
    AppendAssociates(done, XorBytes(rest[..n], ks), Gctr(enc, Inc32(c), rest[n..]));
    assert rest[n..] == input[off'..];
  }

  lemma AppendAssociates(a: Bytes, b: Bytes, c: Bytes)
    ensures a + (b + c) == (a + b) + c
  {}

  method XorStretch(out: array<byte>, off: nat, input: Bytes, ks: Bytes, n: nat)
    requires off + n <= out.Length == |input| && n <= |ks|
    modifies out
    ensures out[..off] == old(out[..off])
    ensures out[off..off + n] == XorBytes(input[off..off + n], ks)
  {
    for i := 0 to n
      invariant forall j :: 0 <= j < off ==> out[j] == old(out[j])
      invariant forall j :: 0 <= j < i ==> out[off + j] == input[off + j] ^ ks[j]
    {
      out[off + i] := input[off + i] ^ ks[i];
    }
  }

  // ---- The tag ----------------------------------------------------------

  function ZeroBytesOf(n: nat): (z: Bytes)
    ensures |z| == n
  {
    seq(n, _ => 0)
  }

  // Byte i of the 64-bit big-endian bit length.
  function LenByte(n: nat, i: nat): byte
    requires i < 8
  {
    ByteWords.ByteOf((8 * n) % Octets.Pow256(8) / Octets.Pow256(7 - i) % 256)
  }

  // The associated data has length zero.
  function LenBlock(n: nat): (b: Bytes)
    ensures |b| == 16
  {
    ZeroBytesOf(8) + seq(8, i requires 0 <= i < 8 => LenByte(n, i))
  }

  // The ciphertext in blocks, the last one filled up with zeros.
  function PaddedBlocks(ct: Bytes): seq<Block> {
    var q := |ct| / 16;
    if |ct| % 16 == 0 then WholeBlocks(ct, q)
    else WholeBlocks(ct, q) + [BitsOf(ct[16 * q..] + ZeroBytesOf(16 - |ct| % 16))]
  }

  function J0(nonce: Bytes): (j: Bytes)
    requires |nonce| == 12
    ensures |j| == 16
  {
    nonce + [0, 0, 0, 1]
  }

  /** The tag of section 7.1: GHASH of padded ciphertext and lengths under the
      cipher of zero, masked with the cipher of the first counter block. */
  ghost predicate IsTag(enc: Bytes -> Bytes, nonce: Bytes, ct: Bytes, tag: Bytes)
    requires IsCipher(enc) && |nonce| == 12
  {
    && |tag| == 16
    && BitsOf(tag) == Xor(Ghash(BitsOf(enc(ZeroBytesOf(16))), PaddedBlocks(ct) + [BitsOf(LenBlock(|ct|))], ZERO),
                          BitsOf(enc(J0(nonce))))
  }

  lemma TagIsUnique(enc: Bytes -> Bytes, nonce: Bytes, ct: Bytes, s: Bytes, t: Bytes)
    requires IsCipher(enc) && |nonce| == 12 && IsTag(enc, nonce, ct, s) && IsTag(enc, nonce, ct, t)
    ensures s == t
  {
    BitsOfIsInjective(s, t);
  }

  method GhashOne(h: array<byte>, block: Bytes, y: array<byte>)
    requires h.Length == 16 && y.Length == 16 && h != y && |block| == 16
    modifies y
    ensures BitsOf(y[..]) == Ghash(BitsOf(h[..]), [BitsOf(block)], old(BitsOf(y[..])))
  {
    assert WholeBlocks(block, 1) == [BitsOf(block)] by { assert block[0..16] == block; }
    GhashUpdate(h, block, 1, y);
  }

  lemma NoBlocks(h: Block, ct: Bytes, y: Block)
    ensures Ghash(h, WholeBlocks(ct, 0), y) == y
  {}

  // GHASH of the padded ciphertext: the whole blocks, then the rest.
  method GhashPadded(h: array<byte>, ct: Bytes, y: array<byte>)
    requires h.Length == 16 && y.Length == 16 && h != y
    modifies y
    ensures BitsOf(y[..]) == Ghash(BitsOf(h[..]), PaddedBlocks(ct), old(BitsOf(y[..])))
  {
    ghost var hs, y0 := BitsOf(h[..]), BitsOf(y[..]);
    NoBlocks(hs, ct, y0);
    hide Ghash, WholeBlocks;
    var full := |ct| / 16;
    if full > 0 {
      GhashUpdate(h, ct, full, y);
    }
    assert BitsOf(h[..]) == hs && BitsOf(y[..]) == Ghash(hs, WholeBlocks(ct, full), y0);
    var rem := |ct| % 16;
    if rem > 0 {
      var last := ct[16 * full..] + ZeroBytesOf(16 - rem);
      GhashSplits(hs, WholeBlocks(ct, full), [BitsOf(last)], y0);
      GhashOne(h, last, y);
    }
  }

  method ComputeTag(enc: Bytes -> Bytes, h: array<byte>, nonce: Bytes, ct: Bytes) returns (tag: Bytes)
    requires IsCipher(enc) && |nonce| == 12 && h.Length == 16 && h[..] == enc(ZeroBytesOf(16))
    ensures IsTag(enc, nonce, ct, tag)
  {
    ghost var hs := BitsOf(h[..]);
    var y := new byte[16](_ => 0);
    ZeroBytes(y[..]);
    GhashPadded(h, ct, y);
    assert BitsOf(h[..]) == hs;
    GhashSplits(hs, PaddedBlocks(ct), [BitsOf(LenBlock(|ct|))], ZERO);
    GhashOne(h, LenBlock(|ct|), y);
    XorBytesIsXor(y[..], enc(J0(nonce)));
    XorInto(y, enc(J0(nonce)));
    tag := y[..];
  }

  // ---- Sealing and opening ----------------------------------------------

  /** What sealing returns. */
  ghost predicate IsSealed(enc: Bytes -> Bytes, nonce: Bytes, pt: Bytes, ct: Bytes, tag: Bytes)
    requires IsCipher(enc) && |nonce| == 12
  {
    ct == Gctr(enc, Inc32(J0(nonce)), pt) && IsTag(enc, nonce, ct, tag)
  }

  method Seal(enc: Bytes -> Bytes, nonce: Bytes, pt: Bytes) returns (ct: Bytes, tag: Bytes)
    requires IsCipher(enc) && |nonce| == 12
    ensures IsSealed(enc, nonce, pt, ct, tag)
  {
    var out := new byte[|pt|];
    GctrInto(enc, Inc32(J0(nonce)), pt, out);
    ct := out[..];
    var hs := enc(ZeroBytesOf(16));
    var h := new byte[16](i requires 0 <= i < 16 => hs[i]);
    assert h[..] == hs;
    tag := ComputeTag(enc, h, nonce, ct);
  }

  lemma OrXorZero(d: byte, a: byte, b: byte)
    ensures d | (a ^ b) == 0 <==> d == 0 && a == b
  {}

  // The comparison that looks at every byte.
  method SameTag(expected: Bytes, tag: Bytes) returns (same: bool)
    requires |expected| == |tag| == 16
    ensures same <==> expected == tag
  {
    var diff: byte := 0;
    for i := 0 to 16
      invariant diff == 0 <==> forall j :: 0 <= j < i ==> expected[j] == tag[j]
    {
      OrXorZero(diff, expected[i], tag[i]);
      diff := diff | (expected[i] ^ tag[i]);
    }
    same := diff == 0;
  }

  /** What opening answers. */
  ghost predicate IsOpened(enc: Bytes -> Bytes, nonce: Bytes, ct: Bytes, tag: Bytes, ok: bool, pt: Bytes)
    requires IsCipher(enc) && |nonce| == 12
  {
    (ok <==> IsTag(enc, nonce, ct, tag)) && (ok ==> pt == Gctr(enc, Inc32(J0(nonce)), ct))
  }

  method Open(enc: Bytes -> Bytes, nonce: Bytes, ct: Bytes, tag: Bytes) returns (ok: bool, pt: Bytes)
    requires IsCipher(enc) && |nonce| == 12 && |tag| == 16
    ensures IsOpened(enc, nonce, ct, tag, ok, pt)
  {
    var hs := enc(ZeroBytesOf(16));
    var h := new byte[16](i requires 0 <= i < 16 => hs[i]);
    assert h[..] == hs;
    var expected := ComputeTag(enc, h, nonce, ct);
    var same := SameTag(expected, tag);
    if !same {
      if IsTag(enc, nonce, ct, tag) { TagIsUnique(enc, nonce, ct, tag, expected); }
      return false, [];
    }
    var out := new byte[|ct|];
    GctrInto(enc, Inc32(J0(nonce)), ct, out);
    return true, out[..];
  }

  // Whatever Seal returned, Open accepts it with exactly one tag, and then
  // answers the plaintext.
  lemma {:induction false} SealedOpens(
    enc: Bytes -> Bytes, nonce: Bytes, pt: Bytes, ct: Bytes, tag: Bytes, t: Bytes, ok: bool, back: Bytes)
    requires IsCipher(enc) && |nonce| == 12
    requires IsSealed(enc, nonce, pt, ct, tag) && IsOpened(enc, nonce, ct, t, ok, back)
    ensures ok <==> t == tag
    ensures ok ==> back == pt
  {
    GctrIsItsOwnInverse(enc, Inc32(J0(nonce)), pt);
    if ok { TagIsUnique(enc, nonce, ct, t, tag); }
  }

  // Data block b is masked with counter block b + 1 from J0; these and J0,
  // which masks the tag, are all different for up to 2^32 - 1 data blocks, and
  // one more block would reuse J0.
  lemma MasksAreDistinct(nonce: Bytes, i: nat, j: nat)
    requires |nonce| == 12
    ensures i < j < U32 ==> IncTimes(J0(nonce), i) != IncTimes(J0(nonce), j)
    ensures IncTimes(J0(nonce), U32) == J0(nonce)
  {
    CounterBlocksRepeat(J0(nonce), i, j);
    CounterBlocksRepeat(J0(nonce), 0, U32);
  }

  // ---- Blocks as they are written ---------------------------------------

  function BigEndian(b: Bytes): nat {
    if |b| == 0 then 0 else 256 * BigEndian(b[..|b| - 1]) + b[|b| - 1] as nat
  }

  lemma {:induction false} LengthPrefix(n: nat, i: nat)
    requires i <= 8
    ensures BigEndian(LenBlock(n)[8..8 + i]) == 8 * n % Octets.Pow256(8) / Octets.Pow256(8 - i)
  {
    var total, b := 8 * n % Octets.Pow256(8), LenBlock(n);
    if i > 0 {
      var p := Octets.Pow256(8 - i);
      LengthPrefix(n, i - 1);
      assert Octets.Pow256(8 - (i - 1)) == 256 * p;
      hide LenByte, LenBlock, Octets.Pow256;
      LenBlockAt(n, i - 1);
      assert b[8..8 + i][..i - 1] == b[8..8 + (i - 1)];
      AppendDigit(total, p, b[8 + (i - 1)]);
    } else {
      Octets.QuotientIs(total, Octets.Pow256(8), 0, total);
    }
  }

  lemma AppendDigit(total: nat, p: nat, d: byte)
    requires p > 0 && d as nat == total / p % 256
    ensures 256 * (total / (256 * p)) + d as nat == total / p
  {
    Octets.DivTwice(total, p);
  }

  lemma LenBlockAt(n: nat, i: nat)
    requires i < 8
    ensures LenBlock(n)[8 + i] as nat == 8 * n % Octets.Pow256(8) / Octets.Pow256(7 - i) % 256
  {}

  /** The length block: eight zero bytes for the associated data, then the number
      of bits of the ciphertext, highest byte first. */
  lemma LengthCountsBits(n: nat)
    requires 8 * n < 0x1_0000_0000_0000_0000
    ensures LenBlock(n)[..8] == [0, 0, 0, 0, 0, 0, 0, 0]
    ensures BigEndian(LenBlock(n)[8..16]) == 8 * n
  {
    LengthPrefix(n, 8);
    assert Octets.Pow256(8) == 0x1_0000_0000_0000_0000;
    Octets.QuotientIs(8 * n, Octets.Pow256(8), 0, 8 * n);
  }

  // The four bytes of a number, highest first.
  function FourBytes(n: nat): (b: Bytes)
    requires n < U32
    ensures |b| == 4
  {
    [ByteWords.ByteOf(n / 0x100_0000), ByteWords.ByteOf(n / 0x1_0000 % 0x100),
     ByteWords.ByteOf(n / 0x100 % 0x100), ByteWords.ByteOf(n % 0x100)]
  }

  lemma {:induction false} CounterOfBlock(nonce: Bytes, n: nat)
    requires |nonce| == 12 && n < U32
    ensures CounterOf(nonce + FourBytes(n)) == n
  {
    var f := FourBytes(n);
    var c := nonce + f;
    FourBytesAre(n);
    assert c[12] == f[0] && c[13] == f[1] && c[14] == f[2] && c[15] == f[3];
    hide *;
    ValueOfFour(c);
    FourDigits(n);
  }

  lemma FourDigits(n: nat)
    ensures 256 * (256 * (256 * (n / 0x100_0000) + n / 0x1_0000 % 256) + n / 0x100 % 256) + n % 256 == n
  {
    var a, b := n / 0x100, n / 0x1_0000;
    Octets.DivTwice(n, 0x100);
    Octets.DivTwice(n, 0x1_0000);
    assert b == a / 256 && n / 0x100_0000 == b / 256;
    Digit(n);
    Digit(a);
    Digit(b);
  }

  lemma Digit(n: nat)
    ensures 256 * (n / 256) + n % 256 == n
  {}

  lemma FourBytesAre(n: nat)
    requires n < U32
    ensures var f := FourBytes(n);
      && f[0] as nat == n / 0x100_0000 && f[1] as nat == n / 0x1_0000 % 256
      && f[2] as nat == n / 0x100 % 256 && f[3] as nat == n % 256
  {}

  lemma ValueOfFour(c: Bytes)
    requires |c| == 16
    ensures CounterOf(c) == 256 * (256 * (256 * (c[12] as nat) + c[13] as nat) + c[14] as nat) + c[15] as nat
  {
    assert ValueTo(c, 13) == 256 * ValueTo(c, 12) + c[13] as nat;
    assert ValueTo(c, 14) == 256 * ValueTo(c, 13) + c[14] as nat;
  }

  lemma OneInFour()
    ensures FourBytes(1) == [0, 0, 0, 1]
  {
    hide ByteWords.ByteOf;
    ByteWords.SmallBytes();
  }

  lemma FirstBlockIs(nonce: Bytes)
    requires |nonce| == 12
    ensures 1 < U32 && J0(nonce) == nonce + FourBytes(1)
    ensures forall n {:trigger n % U32} :: 0 <= n < U32 ==> n % U32 == n
  {
    OneInFour();
  }

  // Counter block k from J0 is the nonce and k + 1.
  lemma {:induction false} CounterBlockIs(nonce: Bytes, k: nat)
    requires |nonce| == 12 && k + 1 < U32
    ensures IncTimes(J0(nonce), k) == nonce + FourBytes(k + 1)
  {
    hide *;
    var j, c := J0(nonce), nonce + FourBytes(k + 1);
    FirstBlockIs(nonce);
    CounterOfBlock(nonce, 1);
    CounterOfBlock(nonce, k + 1);
    IncTimesCounts(j, k);
    assert IncTimes(j, k)[..12] == j[..12] == nonce == c[..12];
    CounterDecides(IncTimes(j, k), c);
  }

  /** Byte j of data block b is masked with byte j of the cipher of the nonce
      followed by b + 2. */
  lemma {:induction false} SealedByte(
    enc: Bytes -> Bytes, nonce: Bytes, pt: Bytes, ct: Bytes, tag: Bytes, b: nat, j: nat)
    requires IsCipher(enc) && |nonce| == 12 && IsSealed(enc, nonce, pt, ct, tag)
    requires j < 16 && 16 * b + j < |pt| && b + 2 < U32
    ensures |ct| == |pt| && ct[16 * b + j] == pt[16 * b + j] ^ enc(nonce + FourBytes(b + 2))[j]
  {
    hide Gctr, J0, Inc32, IsTag, FourBytes;
    GctrAt(enc, Inc32(J0(nonce)), pt, b, j);
    IncTimesShift(J0(nonce), b);
    CounterBlockIs(nonce, b + 1);
  }

  /** The tag of the empty message is the cipher of the nonce followed by 1. */
  lemma {:induction false} EmptyTag(enc: Bytes -> Bytes, nonce: Bytes, tag: Bytes)
    requires IsCipher(enc) && |nonce| == 12
    ensures IsTag(enc, nonce, [], tag) <==> tag == enc(nonce + [0, 0, 0, 1])
  {
    hide Mul, BitsOf;
    var h, e := BitsOf(enc(ZeroBytesOf(16))), enc(J0(nonce));
    assert PaddedBlocks([]) + [BitsOf(LenBlock(0))] == [BitsOf(LenBlock(0))];
    LengthCountsBits(0);
    ZeroLength();
    XorZero(ZERO);
    MulCommutes(ZERO, h);
    MulZero(h);
    assert Ghash(h, [ZERO], ZERO) == ZERO;
    XorZero(BitsOf(e));
    if |tag| == 16 && BitsOf(tag) == BitsOf(e) { BitsOfIsInjective(tag, e); }
  }

  lemma ZeroLength()
    ensures BitsOf(LenBlock(0)) == ZERO
  {
    forall i: nat | i < 8 ensures LenByte(0, i) == 0 { ZeroLenByte(i); }
    hide LenByte;
    ZeroBytes(LenBlock(0));
  }

  lemma ZeroLenByte(i: nat)
    requires i < 8
    ensures LenByte(0, i) == 0
  {
    hide Octets.Pow256, ByteWords.ByteOf;
    ByteWords.SmallBytes();
    Octets.QuotientIs(0, Octets.Pow256(8), 0, 0);
    Octets.QuotientIs(0, Octets.Pow256(7 - i), 0, 0);
    assert LenByte(0, i) == ByteWords.ByteOf(0);
  }
}
