/// Streaming SHA-256 and HMAC (src/security/crypto/sha256.cpp).  The
/// compression function is a parameter; FIPS 180-4 section 5.1.1 is the padding.

module Sha256 {
  import opened Octets
  import opened Bits

  const U32: nat := 0x1_0000_0000
  const U64: nat := 0x1_0000_0000_0000_0000

  type Words = ws: seq<nat> | |ws| == 8 && forall i :: 0 <= i < 8 ==> ws[i] < 0x1_0000_0000
    witness [0, 0, 0, 0, 0, 0, 0, 0]
  type Compression = (Words, Bytes) -> Words

  const INITIAL: Words := [
    0x6a09e667, 0xbb67ae85, 0x3c6ef372, 0xa54ff53a, 0x510e527f, 0x9b05688c, 0x1f83d9ab, 0x5be0cd19]

  // ---- The specification ------------------------------------------------

  // The chaining value after all 64-byte blocks of the data.
  function Fold(f: Compression, h: Words, data: Bytes): Words
    decreases |data|
  {
    if |data| < 64 then h else Fold(f, f(h, data[..64]), data[64..])
  }

  // The low k bytes of n, highest first.
  function BE(n: nat, k: nat): (bs: Bytes)
    ensures |bs| == k
  {
    if k == 0 then [] else BE(n / 256, k - 1) + [n % 256]
  }

  function Zeros(n: nat): (bs: Bytes)
    ensures |bs| == n
  {
    if n == 0 then [] else Zeros(n - 1) + [0]
  }

  // How many zero bytes bring n + 1 bytes to 56 modulo 64.
  function Gap(n: nat): nat { (119 - n % 64) % 64 }

  function Padding(n: nat): (p: Bytes)
    ensures |p| == 9 + Gap(n)
  {
    [0x80] + Zeros(Gap(n)) + BE(8 * n % U64, 8)
  }

  function WordBytes(ws: seq<nat>): (bs: Bytes)
    ensures |bs| == 4 * |ws|
  {
    if |ws| == 0 then [] else WordBytes(ws[..|ws| - 1]) + BE(ws[|ws| - 1], 4)
  }

  function Digest(f: Compression, msg: Bytes): (d: Bytes)
    ensures |d| == 32
  {
    WordBytes(Fold(f, INITIAL, msg + Padding(|msg|)))
  }

  // ---- Properties of the specification ----------------------------------

  lemma {:induction false} FoldSplits(f: Compression, h: Words, a: Bytes, b: Bytes)
    requires |a| % 64 == 0
    ensures Fold(f, h, a + b) == Fold(f, Fold(f, h, a), b)
    decreases |a|
  {
    if |a| >= 64 {
      assert (a + b)[..64] == a[..64] && (a + b)[64..] == a[64..] + b;
      FoldSplits(f, f(h, a[..64]), a[64..], b);
    } else {
      assert |a| == 0 && a + b == b;
    }
  }

  lemma FoldBlock(f: Compression, h: Words, a: Bytes, b: Bytes)
    requires |a| % 64 == 0 && |b| == 64
    ensures Fold(f, h, a + b) == f(Fold(f, h, a), b)
  {
    FoldSplits(f, h, a, b);
    assert b[..64] == b && |b[64..]| == 0;
  }

  /** The padding fills up whole blocks, with the fewest zeros that do. */
  lemma PaddingFills(n: nat, k: nat)
    ensures (n + |Padding(n)|) % 64 == 0
    ensures k < Gap(n) ==> (n + 1 + k + 8) % 64 != 0
  {
    hide Padding;
    var q, r, g := n / 64, n % 64, Gap(n);
    assert n == 64 * q + r && (r + 9 + g == 64 || r + 9 + g == 128);
    if k < g {
      assert r + 9 + k != 64 && r + 9 + k != 128 && 0 < r + 9 + k < 128;
      assert n + 1 + k + 8 == 64 * q + (r + 9 + k);
    }
  }

  lemma {:induction false} BEInjective(n: nat, m: nat, k: nat)
    requires n < Pow256(k) && m < Pow256(k) && BE(n, k) == BE(m, k)
    ensures n == m
  {
    if k > 0 {
      assert BE(n, k)[k - 1] == n % 256 && BE(m, k)[k - 1] == m % 256;
      assert BE(n, k)[..k - 1] == BE(n / 256, k - 1) && BE(m, k)[..k - 1] == BE(m / 256, k - 1);
      BEInjective(n / 256, m / 256, k - 1);
    }
  }

  lemma LastEight(a: Bytes)
    ensures var x := a + Padding(|a|); |x| >= 8 && x[|x| - 8..] == BE(8 * |a| % U64, 8)
  {
    hide BE, Zeros;
    var x := a + Padding(|a|);
    assert x == (a + [0x80] + Zeros(Gap(|a|))) + BE(8 * |a| % U64, 8);
  }

  /** No two messages below 2^61 bytes become the same padded message. */
  lemma {:induction false} PaddingIsInjective(a: Bytes, b: Bytes)
    requires 8 * |a| < U64 && 8 * |b| < U64 && a + Padding(|a|) == b + Padding(|b|)
    ensures a == b
  {
    hide Padding, BE;
    LastEight(a);
    LastEight(b);
    assert Pow256(8) == U64;
    BEInjective(8 * |a|, 8 * |b|, 8);
    assert a == (a + Padding(|a|))[..|a|] && b == (b + Padding(|b|))[..|b|];
  }

  // ---- The streaming object ---------------------------------------------

  class Hasher {
    const f: Compression
    const buf: array<octet>
    var h: Words
    var bufLen: nat
    var totalLen: nat
    ghost var fed: Bytes    // everything update has been given

    // What has been compressed so far is all but the last bufLen bytes.
    ghost predicate Holds()
      reads this, buf
    {
      && buf.Length == 64 && bufLen <= 64 && bufLen <= |fed|
      && (|fed| - bufLen) % 64 == 0
      && buf[..bufLen] == fed[|fed| - bufLen..]
      && h == Fold(f, INITIAL, fed[..|fed| - bufLen])
    }

    ghost predicate Valid()
      reads this, buf
    {
      Holds() && bufLen < 64 && totalLen == |fed| % U64
    }

    constructor (f: Compression)
      ensures Valid() && fed == [] && this.f == f && fresh(buf)
    {
      this.f := f;
      buf := new octet[64];
      h, bufLen, totalLen, fed := INITIAL, 0, 0, [];
    }

    // Once the buffer is full, compress it.
    method Flush()
      requires Holds() && bufLen == 64
      modifies this
      ensures Holds() && bufLen == 0 && fed == old(fed) && totalLen == old(totalLen)
    {
      FoldBlock(f, INITIAL, fed[..|fed| - 64], buf[..64]);
      assert fed[..|fed| - 64] + buf[..64] == fed;
      h := f(h, buf[..]);
      assert buf[..] == buf[..64];
      bufLen := 0;
      assert fed[..|fed|] == fed;
    }

    method Store(b: octet)
      requires Holds() && bufLen < 64
      modifies this, buf
      ensures Holds() && bufLen == old(bufLen) + 1 && fed == old(fed) + [b] && totalLen == old(totalLen)
    {
      ghost var was := fed;
      buf[bufLen] := b;
      bufLen := bufLen + 1;
      fed := fed + [b];
      assert fed[..|fed| - bufLen] == was[..|was| - (bufLen - 1)];
    }

    method Update(data: Bytes)
      requires Valid()
      modifies this, buf
      ensures Valid() && fed == old(fed) + data
    {
      hide Fold;
      ghost var was := fed;
      totalLen := (totalLen + |data|) % U64;
      var i := TopUp(data);
      var j := Blocks(data[i..]);
      assert fed == was + data[..i] + data[i..][..j] == was + (data[..i] + data[i..][..j]);
      Tail(data[i + j..]);
      assert data == data[..i] + data[i..][..j] + data[i + j..];
      ModAdd(|was|, |data|);
    }

    // Completes a block begun earlier; i bytes go into it.
    method TopUp(data: Bytes) returns (i: nat)
      requires Holds() && bufLen < 64
      modifies this, buf
      ensures i <= |data| && Holds() && fed == old(fed) + data[..i] && totalLen == old(totalLen)
      ensures bufLen == 0 || (i == |data| && bufLen < 64)
    {
      i := 0;
      if bufLen > 0 {
        while i < |data| && bufLen < 64
          invariant 0 <= i <= |data| && Holds() && fed == old(fed) + data[..i] && totalLen == old(totalLen)
          invariant bufLen > 0
        {
          Store(data[i]);
          i := i + 1;
        }
        if bufLen == 64 { Flush(); }
      }
    }

    // Compresses whole blocks straight from the input.
    method Blocks(data: Bytes) returns (i: nat)
      requires Holds() && (bufLen == 0 || |data| == 0) && bufLen < 64
      modifies this
      ensures i <= |data| && Holds() && fed == old(fed) + data[..i] && totalLen == old(totalLen)
      ensures |data| - i < 64 && bufLen == old(bufLen)
    {
      i := 0;
      while |data| - i >= 64
        invariant 0 <= i <= |data| && Holds() && fed == old(fed) + data[..i] && totalLen == old(totalLen)
        invariant bufLen == old(bufLen)
      {
        Compress(data[i..i + 64]);
        assert data[..i + 64] == data[..i] + data[i..i + 64];
        i := i + 64;
      }
    }

    // Keeps what is left for later.
    method Tail(data: Bytes)
      requires Holds() && bufLen + |data| < 64
      modifies this, buf
      ensures Holds() && bufLen < 64 && fed == old(fed) + data && totalLen == old(totalLen)
    {
      var i := 0;
      while i < |data|
        invariant 0 <= i <= |data| && Holds() && fed == old(fed) + data[..i] && totalLen == old(totalLen)
        invariant bufLen + (|data| - i) < 64
      {
        Store(data[i]);
        i := i + 1;
      }
      assert data[..|data|] == data;
    }

    /** The digest of everything given to update, however it was cut up. */
    method Finish() returns (d: Bytes)
      requires Valid()
      modifies this, buf
      ensures d == Digest(f, old(fed))
    {
      ghost var msg := fed;
      var bitLen := totalLen * 8 % U64;
      BitLength(|msg|);
      Pad(msg);
      StoreLength(bitLen);
      Flush();
      PaddedMessage(msg, bitLen);
      assert fed[..|fed|] == fed == msg + Padding(|msg|);
      d := Output();
    }

    // 0x80, then zeros up to 56 bytes in the buffer.
    method Pad(ghost msg: Bytes)
      requires Valid() && fed == msg
      modifies this, buf
      ensures Holds() && bufLen == 56 && fed == msg + [0x80] + Zeros(Gap(|msg|))
    {
      hide Fold, Zeros;
      Update([0x80]);
      ghost var k := 0;
      ZerosStep(msg + [0x80], k);
      while bufLen != 56
        invariant Valid() && k <= Gap(|msg|) && fed == msg + [0x80] + Zeros(k)
        decreases Gap(|msg|) - k
      {
        GapIsLeast(|msg|, k, bufLen);
        Update([0]);
        ZerosStep(msg + [0x80], k);
        k := k + 1;
      }
      GapIsLeast(|msg|, k, bufLen);
    }

    // The eight bytes of the length, highest first.
    method StoreLength(bitLen: nat)
      requires Holds() && bufLen == 56
      modifies this, buf
      ensures Holds() && bufLen == 64 && fed == old(fed) + BE(bitLen, 8)
    {
      var n := 0;
      while n < 8
        invariant n <= 8 && Holds() && bufLen == 56 + n && fed == old(fed) + BE(bitLen, 8)[..n]
      {
        BEAt(bitLen, 8, n);
        Store(bitLen / Pow256(7 - n) % 256);
        n := n + 1;
      }
    }

    method Output() returns (d: Bytes)
      ensures d == WordBytes(h)
    {
      d := [];
      for i := 0 to 8
        invariant d == WordBytes(h[..i])
      {
        BEFour(h[i]);
        d := d + [h[i] / 0x100_0000 % 256, h[i] / 0x1_0000 % 256, h[i] / 0x100 % 256, h[i] % 256];
        assert h[..i + 1][..i] == h[..i];
      }
      assert h[..8] == h;
    }

    // A whole block straight from the input.
    method Compress(block: Bytes)
      requires Holds() && bufLen == 0 && |block| == 64
      modifies this
      ensures Holds() && bufLen == 0 && fed == old(fed) + block && totalLen == old(totalLen)
    {
      assert fed[..|fed|] == fed;
      FoldBlock(f, INITIAL, fed, block);
      h := f(h, block);
      fed := fed + block;
      assert fed[..|fed|] == fed;
    }
  }

  lemma ZerosStep(a: Bytes, k: nat)
    ensures a + Zeros(0) == a && a + Zeros(k) + [0] == a + Zeros(k + 1)
  {}

  lemma {:induction false} BEAt(n: nat, k: nat, i: nat)
    requires i < k
    ensures BE(n, k)[i] == n / Pow256(k - 1 - i) % 256
    decreases k
  {
    if i < k - 1 {
      BEAt(n / 256, k - 1, i);
      DivTwice(n, Pow256(k - 2 - i));
    }
  }

  lemma BEFour(n: nat)
    ensures BE(n, 4) == [n / 0x100_0000 % 256, n / 0x1_0000 % 256, n / 0x100 % 256, n % 256]
  {
    assert BE(n / 256 / 256 / 256, 1) == [n / 256 / 256 / 256 % 256];
  }

  lemma BitLength(n: nat)
    ensures n % U64 * 8 % U64 == 8 * n % U64
  {
    var q, r := n / U64, n % U64;
    assert 8 * n == U64 * (8 * q) + 8 * r;
  }

  // The pad loop ends after exactly Gap zeros.
  lemma GapIsLeast(n: nat, k: nat, held: nat)
    requires k <= Gap(n) && held < 64 && (n + 1 + k - held) % 64 == 0
    ensures held == 56 <==> k == Gap(n)
  {
    var q, r := n / 64, n % 64;
    assert n == 64 * q + r;
    assert (r + 1 + k - held) % 64 == 0;
  }

  lemma PaddedMessage(msg: Bytes, bitLen: nat)
    requires bitLen == 8 * |msg| % U64
    ensures msg + [0x80] + Zeros(Gap(|msg|)) + BE(bitLen, 8) == msg + Padding(|msg|)
  {
    hide Zeros, BE;
  }

  lemma ModAdd(a: nat, b: nat)
    ensures (a % U64 + b) % U64 == (a + b) % U64
  {
    assert a == a / U64 * U64 + a % U64;
  }

  lemma {:induction false} ZerosAreZero(n: nat, i: nat)
    requires i < n
    ensures Zeros(n)[i] == 0
  {
    if i < n - 1 { ZerosAreZero(n - 1, i); }
  }

  lemma {:induction false} ZerosBetween(msg: Bytes)
    ensures var n, x := |msg|, msg + Padding(|msg|);
      x[n] == 0x80 && forall k :: n < k < |x| - 8 ==> x[k] == 0
  {
    hide Zeros, BE, Gap;
    var n, x := |msg|, msg + Padding(|msg|);
    forall k | n < k < |x| - 8 ensures x[k] == 0 {
      ZerosAreZero(Gap(n), k - n - 1);
      assert x[k] == Zeros(Gap(n))[k - n - 1];
    }
  }

  lemma GapIsSmall(n: nat)
    ensures Gap(n) < 64
  {}

  lemma NoWrap(n: nat)
    ensures 8 * n < 0x1_0000_0000_0000_0000 ==> 8 * n % U64 == 8 * n
  {}

  /** The padded message: the message, 0x80, zeros, and the number of bits in
      eight bytes, highest first; it fills whole blocks. */
  lemma {:induction false} PaddedLayout(msg: Bytes)
    requires 8 * |msg| < 0x1_0000_0000_0000_0000
    ensures var n, x := |msg|, msg + Padding(|msg|);
      && |x| % 64 == 0 && n + 9 <= |x| < n + 73
      && x[..n] == msg && x[n] == 0x80 && (forall k :: n < k < |x| - 8 ==> x[k] == 0)
      && forall k :: |x| - 8 <= k < |x| ==> x[k] == 8 * n / Pow256(|x| - 1 - k) % 256
  {
    hide *;
    var n, x := |msg|, msg + Padding(|msg|);
    PaddingFills(n, 0);
    GapIsSmall(n);
    LastEight(msg);
    ZerosBetween(msg);
    NoWrap(n);
    assert x[..n] == msg;
    forall k | |x| - 8 <= k < |x| ensures x[k] == 8 * n / Pow256(|x| - 1 - k) % 256 {
      var i := k - (|x| - 8);
      BEAt(8 * n, 8, i);
      assert x[k] == x[|x| - 8..][i];
    }
  }

  lemma {:induction false} WordBytesAt(ws: seq<nat>, i: nat, j: nat)
    requires i < |ws| && j < 4
    ensures WordBytes(ws)[4 * i + j] == ws[i] / Pow256(3 - j) % 256
    decreases |ws|
  {
    if i < |ws| - 1 { WordBytesAt(ws[..|ws| - 1], i, j); } else { BEAt(ws[i], 4, j); }
  }

  /** The digest is the eight words of the last chaining value, each highest byte
      first. */
  lemma {:induction false} DigestLayout(f: Compression, msg: Bytes, i: nat, j: nat)
    requires i < 8 && j < 4
    ensures Digest(f, msg)[4 * i + j] == Fold(f, INITIAL, msg + Padding(|msg|))[i] / Pow256(3 - j) % 256
  {
    hide Fold, WordBytes;
    WordBytesAt(Fold(f, INITIAL, msg + Padding(|msg|)), i, j);
  }

  method Hash(f: Compression, data: Bytes) returns (d: Bytes)
    ensures d == Digest(f, data)
  {
    hide Digest, Fold, Hasher.Valid;
    var s := new Hasher(f);
    s.Update(data);
    assert [] + data == data;
    d := s.Finish();
  }

  // ---- HMAC (RFC 2104 section 2) ----------------------------------------

  // Exclusive or of the low n bits.
  function XorBits(a: nat, b: nat, n: nat): (r: nat)
    ensures r < Pow2(n)
  {
    if n == 0 then 0 else (if a % 2 == b % 2 then 0 else 1) + 2 * XorBits(a / 2, b / 2, n - 1)
  }

  function XorOctet(a: octet, b: octet): octet {
    assert Pow2(8) == 256;
    XorBits(a, b, 8)
  }

  function XorAll(k: Bytes, b: octet): (r: Bytes)
    ensures |r| == |k|
  {
    if |k| == 0 then [] else XorAll(k[..|k| - 1], b) + [XorOctet(k[|k| - 1], b)]
  }

  lemma {:induction false} XorBitsAt(a: nat, b: nat, n: nat, k: nat)
    requires k < n
    ensures Bit(XorBits(a, b, n), k) <==> Bit(a, k) != Bit(b, k)
  {
    if k > 0 { XorBitsAt(a / 2, b / 2, n - 1, k - 1); }
  }

  lemma {:induction false} XorAllAt(k: Bytes, b: octet, i: nat)
    requires i < |k|
    ensures XorAll(k, b)[i] == XorOctet(k[i], b)
    decreases |k|
  {
    hide XorOctet;
    if i < |k| - 1 { XorAllAt(k[..|k| - 1], b, i); }
  }

  // The key, hashed if longer than a block, filled up with zeros.
  function BlockKey(f: Compression, key: Bytes): (k: Bytes)
    ensures |k| == 64
  {
    if |key| > 64 then Digest(f, key) + Zeros(32) else key + Zeros(64 - |key|)
  }

  function Hmac(f: Compression, key: Bytes, msg: Bytes): Bytes {
    var k := BlockKey(f, key);
    Digest(f, XorAll(k, 0x5c) + Digest(f, XorAll(k, 0x36) + msg))
  }

  // pad is the 64 bytes of the key, filled up with zeros, each with the bits of
  // b flipped.
  ghost predicate IsMasked(pad: Bytes, key: Bytes, b: octet) {
    |pad| == 64 && forall i: nat, k: nat :: i < 64 && k < 8 ==>
      (Bit(pad[i], k) <==> Bit(if i < |key| then key[i] else 0, k) != Bit(b, k))
  }

  /** HMAC: the digest of the key masked with 0x5c and the digest of the key
      masked with 0x36 and the message; a key longer than a block is hashed
      first. */
  lemma {:induction false} HmacIsNested(f: Compression, key: Bytes, msg: Bytes)
    ensures var short := if |key| > 64 then Digest(f, key) else key;
      exists outer, inner :: IsMasked(outer, short, 0x5c) && IsMasked(inner, short, 0x36)
        && Hmac(f, key, msg) == Digest(f, outer + Digest(f, inner + msg))
  {
    hide Digest, XorAll;
    var k := BlockKey(f, key);
    KeyIsMasked(f, key, 0x5c);
    KeyIsMasked(f, key, 0x36);
    var outer, inner := XorAll(k, 0x5c), XorAll(k, 0x36);
    assert Hmac(f, key, msg) == Digest(f, outer + Digest(f, inner + msg));
  }

  lemma {:induction false} KeyIsMasked(f: Compression, key: Bytes, b: octet)
    ensures IsMasked(XorAll(BlockKey(f, key), b), if |key| > 64 then Digest(f, key) else key, b)
  {
    hide Digest, XorAll, Zeros, XorBits, Bit;
    var k, short := BlockKey(f, key), if |key| > 64 then Digest(f, key) else key;
    forall i: nat, n: nat | i < 64 && n < 8
      ensures Bit(XorAll(k, b)[i], n) <==> Bit(if i < |short| then short[i] else 0, n) != Bit(b, n)
    {
      XorAllAt(k, b, i);
      XorBitsAt(k[i], b, 8, n);
      if i >= |short| { ZerosAreZero(64 - |short|, i - |short|); }
    }
  }

  method HmacSha256(f: Compression, key: Bytes, msg: Bytes) returns (d: Bytes)
    ensures d == Hmac(f, key, msg)
  {
    hide Digest, Fold, XorOctet, Zeros;
    var k0: Bytes;
    if |key| > 64 {
      var kh := Hash(f, key);
      k0 := kh + Zeros(32);
    } else {
      k0 := key + Zeros(64 - |key|);
    }
    var ipad, opad: Bytes := [], [];
    for i := 0 to 64
      invariant ipad == XorAll(k0[..i], 0x36) && opad == XorAll(k0[..i], 0x5c)
    {
      assert k0[..i + 1][..i] == k0[..i];
      ipad, opad := ipad + [XorOctet(k0[i], 0x36)], opad + [XorOctet(k0[i], 0x5c)];
    }
    assert k0[..64] == k0;
    var inner := HashTwo(f, ipad, msg);
    d := HashTwo(f, opad, inner);
  }

  // Two updates, then finish.
  method HashTwo(f: Compression, a: Bytes, b: Bytes) returns (d: Bytes)
    ensures d == Digest(f, a + b)
  {
    hide Digest, Fold, Hasher.Valid;
    var s := new Hasher(f);
    s.Update(a);
    s.Update(b);
    assert [] + a + b == a + b;
    d := s.Finish();
  }

  /** Telling keys apart: keys of at most a block give the same HMAC key block
      exactly when they are equal up to trailing zeros, and then the same HMAC of
      every message. */
  lemma {:induction false} ShortKeys(f: Compression, a: Bytes, b: Bytes, msg: Bytes)
    requires |a| <= |b| <= 64
    ensures BlockKey(f, a) == BlockKey(f, b) <==> b == a + Zeros(|b| - |a|)
    ensures b == a + Zeros(|b| - |a|) ==> Hmac(f, a, msg) == Hmac(f, b, msg)
  {
    hide Zeros, Digest, XorAll;
    ZerosJoin(|b| - |a|, 64 - |b|);
    var x, y := BlockKey(f, a), BlockKey(f, b);
    assert y[..|b|] == b;
    assert x == a + (Zeros(|b| - |a|) + Zeros(64 - |b|)) == (a + Zeros(|b| - |a|)) + Zeros(64 - |b|);
    assert x[..|b|] == a + Zeros(|b| - |a|);
  }

  lemma {:induction false} ZerosJoin(n: nat, m: nat)
    ensures Zeros(n) + Zeros(m) == Zeros(n + m)
  {
    if m > 0 { ZerosJoin(n, m - 1); }
  }
}
