/// End-to-end protection frames (src/safety/e2e.cpp).
///
/// Frames, and the checks of the subscriber.

module E2e {
  import opened Octets
  import opened Crc16

  const HEADER_SIZE: nat := 18
  const U32: nat := 0x1_0000_0000
  const U64: nat := 0x1_0000_0000_0000_0000

  // The CRC register as a number.
  function ValueOf(bits: Bits): nat
    decreases |bits|
  {
    if |bits| == 0 then 0 else 2 * ValueOf(bits[..|bits| - 1]) + (if bits[|bits| - 1] then 1 else 0)
  }

  lemma {:induction false} ValueIsInjective(a: Bits, b: Bits)
    requires |a| == |b| && ValueOf(a) == ValueOf(b)
    ensures a == b
    decreases |a|
  {
    if |a| > 0 {
      var n := |a| - 1;
      ValueIsInjective(a[..n], b[..n]);
      assert a == a[..n] + [a[n]] && b == b[..n] + [b[n]];
    }
  }

  lemma {:induction false} ValueFits(a: Bits)
    ensures ValueOf(a) < Pow2(|a|)
    decreases |a|
  {
    if |a| > 0 { ValueFits(a[..|a| - 1]); }
  }

  // The k-th power of x is still a single bit.
  lemma {:induction false} BitMovesUp(k: nat)
    requires k <= 7
    ensures Turns(High(1), k) == seq(16, i => i == 7 - k)
    decreases k
  {
    if k == 0 {
      assert High(1) == seq(16, i => i == 7);
    } else {
      BitMovesUp(k - 1);
    }
  }

  /** The generator and the start value of CRC-16/CCITT-FALSE: the CRC register
      of x^16 is 0x1021, that of no data 0xffff, and a set top bit of the start
      value brings the generator in. */
  lemma {:induction false} GeneratorIs1021()
    ensures ValueOf(Crc(ZERO, [1])) == 0x1021 && ValueOf(Crc(INIT, [])) == 0xFFFF
  {
    hide *;
    CrcOfOneByte(INIT, 0);
    OneTurnsIntoPoly();
    PolyValue();
    CrcOfOneByte(ZERO, 1);
    XorZeroIs(High(1));
  }

  lemma {:induction false} OneTurnsIntoPoly()
    ensures Turns(High(1), 8) == POLY
  {
    BitMovesUp(7);
    var r := Turns(High(1), 7);
    assert Turns(High(1), 8) == Turn(r);
    hide Turns, High;
    assert Shl(r) == ZERO && Xor(ZERO, POLY) == POLY;
  }

  lemma XorZeroIs(r: Reg)
    ensures Xor(ZERO, r) == r
  {}

  lemma CrcOfOneByte(r: Reg, b: octet)
    ensures Crc(r, [b]) == Turns(Xor(r, High(b)), 8) && Crc(r, []) == r
  {
    hide Turns, High, Xor;
    assert |[b][1..]| == 0;
  }

  lemma {:induction false} PolyValue()
    ensures ValueOf(POLY) == 0x1021 && ValueOf(INIT) == 0xFFFF
  {
    RegisterValue(POLY);
    RegisterValue(INIT);
  }

  lemma {:induction false} RegisterValue(r: Reg)
    ensures ValueOf(r) == 4096 * Nibble(r[..4]) + 256 * Nibble(r[4..8]) + 16 * Nibble(r[8..12]) + Nibble(r[12..])
  {
    ValueAppends(r[..12], r[12..]);
    ValueAppends(r[..8], r[8..12]);
    ValueAppends(r[..4], r[4..8]);
    ValueAppends([], r[..4]);
    assert r[..4] + r[4..8] == r[..8] && r[..8] + r[8..12] == r[..12] && r[..12] + r[12..] == r;
    assert [] + r[..4] == r[..4];
  }

  function Nibble(b: Bits): nat
    requires |b| == 4
  {
    (if b[0] then 8 else 0) + (if b[1] then 4 else 0) + (if b[2] then 2 else 0) + if b[3] then 1 else 0
  }

  lemma ValueAppends(a: Bits, b: Bits)
    requires |b| == 4
    ensures ValueOf(a + b) == 16 * ValueOf(a) + Nibble(b)
  {
    var c := a + b;
    var n := |a|;
    assert c[..n + 3][..n + 2] == c[..n + 2] && c[..n + 2][..n + 1] == c[..n + 1] && c[..n + 1][..n] == a;
    assert ValueOf(c[..n + 1]) == 2 * ValueOf(a) + if b[0] then 1 else 0;
    assert ValueOf(c[..n + 2]) == 2 * ValueOf(c[..n + 1]) + if b[1] then 1 else 0;
    assert ValueOf(c[..n + 3]) == 2 * ValueOf(c[..n + 2]) + if b[2] then 1 else 0;
  }

  // ---- Frames -----------------------------------------------------------

  datatype Config = Config(dataId: nat, sourceId: nat, maxAge: int)
  {
    predicate Valid() { dataId < 65536 && sourceId < 65536 }
  }

  // What the CRC covers: all but its own slot.
  function Covered(frame: Bytes): Bytes
    requires |frame| >= HEADER_SIZE
  {
    frame[..16] + frame[18..]
  }

  function CrcOf(covered: Bytes): (c: nat)
    ensures c < 65536
  {
    var r := Crc(INIT, covered);
    ValueFits(r);
    assert Pow2(4) == 16 && Pow2(8) == 256 && Pow2(12) == 4096 && Pow2(16) == 65536;
    ValueOf(r)
  }

  // Timestamps are the bits of a signed 64-bit number.
  function AsU64(t: int): nat
    requires -(U64 as int) <= 2 * t < U64
  {
    if t < 0 then t + U64 else t
  }

  function AsI64(u: nat): int
    requires u < U64
  {
    if 2 * u >= U64 then u - U64 else u
  }

  function Head(cfg: Config, counter: nat, ts: int): (h: Bytes)
    requires cfg.Valid() && counter < U32 && -(U64 as int) <= 2 * ts < U64
    ensures |h| == 16
  {
    LE(cfg.dataId, 2) + LE(cfg.sourceId, 2) + LE(counter, 4) + LE(AsU64(ts), 8)
  }

  function MakeFrame(cfg: Config, counter: nat, ts: int, payload: Bytes): (f: Bytes)
    requires cfg.Valid() && counter < U32 && -(U64 as int) <= 2 * ts < U64
    ensures |f| == HEADER_SIZE + |payload|
  {
    var h := Head(cfg, counter, ts);
    h + LE(CrcOf(h + payload), 2) + payload
  }

  datatype Parsed = Parsed(counter: nat, ts: int, payload: Bytes, crcOk: bool)

  function ParseFrame(frame: Bytes): Parsed
    requires |frame| >= HEADER_SIZE
  {
    LEInverts(frame[8..16]);
    assert Pow256(8) == U64;
    var ok := CrcOf(Covered(frame)) == UnLE(frame[16..18]);
    Parsed(UnLE(frame[4..8]), AsI64(UnLE(frame[8..16])), if ok then frame[18..] else [], ok)
  }

  /** Every frame made parses back to its counter, timestamp and payload. */
  lemma {:induction false} FrameRoundTrip(cfg: Config, counter: nat, ts: int, payload: Bytes)
    requires cfg.Valid() && counter < U32 && -(U64 as int) <= 2 * ts < U64
    ensures ParseFrame(MakeFrame(cfg, counter, ts, payload)) == Parsed(counter, ts, payload, true)
  {
    var h, f := Head(cfg, counter, ts), MakeFrame(cfg, counter, ts, payload);
    assert f[4..8] == LE(counter, 4) && f[8..16] == LE(AsU64(ts), 8) && f[18..] == payload;
    assert Covered(f) == h + payload;
    assert f[16..18] == LE(CrcOf(h + payload), 2);
    assert Pow256(4) == U32 && Pow256(8) == U64 && Pow256(2) == 65536;
    UnLEInverts(counter, 4);
    UnLEInverts(AsU64(ts), 8);
    UnLEInverts(CrcOf(h + payload), 2);
  }

  /** The frame byte by byte: data id, source id, counter, timestamp in two's
      complement, the CRC of everything else, and the payload. */
  lemma {:induction false} FrameLayout(cfg: Config, counter: nat, ts: int, payload: Bytes)
    requires cfg.Valid() && counter < U32 && -(U64 as int) <= 2 * ts < U64
    ensures var f := MakeFrame(cfg, counter, ts, payload);
      && |f| == 18 + |payload|
      && Two(f, 0) == cfg.dataId && Two(f, 2) == cfg.sourceId && Four(f, 4) == counter
      && Four(f, 8) + 0x1_0000_0000 * Four(f, 12) == (if ts < 0 then ts + 0x1_0000_0000_0000_0000 else ts)
      && Two(f, 16) == CrcOf(f[..16] + f[18..]) && f[18..] == payload
  {
    var f, h, t := MakeFrame(cfg, counter, ts, payload), Head(cfg, counter, ts), AsU64(ts);
    HeadFields(cfg, counter, ts);
    assert f[0..2] == h[0..2] && f[2..4] == h[2..4] && f[4..8] == h[4..8] && f[8..12] == h[8..12];
    assert f[12..16] == h[12..16] && f[..16] == h && f[18..] == payload;
    assert f[16..18] == LE(CrcOf(h + payload), 2);
    hide LE, Head;
    TwoAt(f, 0, cfg.dataId);
    TwoAt(f, 2, cfg.sourceId);
    FourAt(f, 4, counter);
    FourAt(f, 8, t % U32);
    FourAt(f, 12, t / U32);
    TwoAt(f, 16, CrcOf(h + payload));
  }

  lemma {:induction false} HeadFields(cfg: Config, counter: nat, ts: int)
    requires cfg.Valid() && counter < U32 && -(U64 as int) <= 2 * ts < U64
    ensures var h, t := Head(cfg, counter, ts), AsU64(ts);
      && h[0..2] == LE(cfg.dataId, 2) && h[2..4] == LE(cfg.sourceId, 2) && h[4..8] == LE(counter, 4)
      && h[8..12] == LE(t % U32, 4) && h[12..16] == LE(t / U32, 4)
  {
    hide LE;
    var h, t := Head(cfg, counter, ts), AsU64(ts);
    assert Pow256(4) == U32 && t == t % U32 + U32 * (t / U32);
    LEJoins(t % U32, t / U32, 4, 4);
    assert h[8..16] == LE(t, 8);
    assert h[8..12] == h[8..16][..4] && h[12..16] == h[8..16][4..];
  }

  // ---- What the check lets pass -----------------------------------------

  // The register the CRC slot stands for: high byte second.
  function Slot(frame: Bytes): Reg
    requires |frame| >= HEADER_SIZE
  {
    ByteBits(frame[17]) + ByteBits(frame[16])
  }

  lemma {:induction false} ByteValue(b: octet)
    ensures ValueOf(ByteBits(b)) == b
  {
    hide ValueOf;
    var w := ByteBits(b);
    HighBits(b);
    NextBit(w, 4, b / 8);
    NextBit(w, 5, b / 4);
    NextBit(w, 6, b / 2);
    NextBit(w, 7, b);
    assert w[..8] == w;
  }

  lemma {:induction false} HighBits(b: octet)
    ensures ValueOf(ByteBits(b)[..4]) == b / 16
  {
    hide ValueOf;
    var w := ByteBits(b);
    NextBit(w, 0, b / 128);
    NextBit(w, 1, b / 64);
    NextBit(w, 2, b / 32);
    NextBit(w, 3, b / 16);
  }

  // n is the number whose bits are w[..k + 1].
  lemma NextBit(w: Bits, k: nat, n: nat)
    requires k < |w| && (if k == 0 then n < 2 else ValueOf(w[..k]) == n / 2) && w[k] == (n % 2 == 1)
    ensures ValueOf(w[..k + 1]) == n
  {
    assert w[..k + 1][..k] == w[..k];
    if k == 0 { assert |w[..0]| == 0; }
  }

  lemma {:induction false} ValueOfConcat(a: Bits, b: Bits)
    ensures ValueOf(a + b) == ValueOf(a) * Pow2(|b|) + ValueOf(b)
    decreases |b|
  {
    if |b| == 0 {
      assert a + b == a;
    } else {
      var n := |b| - 1;
      assert (a + b)[..|a| + n] == a + b[..n];
      ValueOfConcat(a, b[..n]);
      Doubled(ValueOf(a), Pow2(n), ValueOf(b[..n]));
    }
  }

  lemma Doubled(x: nat, p: nat, y: nat)
    ensures 2 * (x * p + y) == x * (2 * p) + 2 * y
  {}

  lemma {:induction false} SlotValue(frame: Bytes)
    requires |frame| >= HEADER_SIZE
    ensures ValueOf(Slot(frame)) == UnLE(frame[16..18])
  {
    ByteValue(frame[16]);
    ByteValue(frame[17]);
    ValueOfConcat(ByteBits(frame[17]), ByteBits(frame[16]));
    assert Pow2(4) == 16 && Pow2(8) == 256;
    assert frame[16..18] == [frame[16], frame[17]];
    assert UnLE([frame[16], frame[17]][1..]) == frame[17];
  }

  // A frame passes exactly when the slot holds the register.
  lemma {:induction false} PassesIffSlot(frame: Bytes)
    requires |frame| >= HEADER_SIZE
    ensures ParseFrame(frame).crcOk <==> Slot(frame) == Crc(INIT, Covered(frame))
  {
    SlotValue(frame);
    if ParseFrame(frame).crcOk { ValueIsInjective(Slot(frame), Crc(INIT, Covered(frame))); }
  }

  /** Whatever happened to a good frame, slot included: it passes exactly when
      the change of the slot is the remainder of the change of the covered bits. */
  lemma {:induction false} PassingDamage(f: Bytes, g: Bytes)
    requires |f| == |g| >= HEADER_SIZE && ParseFrame(f).crcOk
    ensures ParseFrame(g).crcOk <==>
            Xor(Slot(f), Slot(g)) == CrcBits(ZERO, Xor(BitsOf(Covered(f)), BitsOf(Covered(g))))
  {
    var a, b := Covered(f), Covered(g);
    PassesIffSlot(f);
    PassesIffSlot(g);
    CrcIsBitwise(INIT, a);
    CrcIsBitwise(INIT, b);
    CrcBitsLinear(INIT, INIT, BitsOf(a), BitsOf(b));
    assert Xor(INIT, INIT) == ZERO;
    XorCancels(Slot(f), Slot(g), Crc(INIT, b));
  }

  lemma XorCancels(r: Reg, s: Reg, t: Reg)
    ensures Xor(r, s) == Xor(r, t) <==> s == t
  {
    if Xor(r, s) == Xor(r, t) {
      forall i | 0 <= i < 16 ensures s[i] == t[i] { assert Xor(r, s)[i] == Xor(r, t)[i]; }
    }
  }

  lemma {:induction false} BitsOfConcat(a: Bytes, b: Bytes)
    ensures BitsOf(a + b) == BitsOf(a) + BitsOf(b)
    decreases |a|
  {
    if |a| == 0 {
      assert a + b == b;
    } else {
      assert (a + b)[1..] == a[1..] + b;
      BitsOfConcat(a[1..], b);
    }
  }

  // The bits of a frame are those of the slot and the covered ones.
  lemma {:induction false} FrameParity(f: Bytes)
    requires |f| >= HEADER_SIZE
    ensures Odd(BitsOf(f)) == (Odd(Slot(f)) != Odd(BitsOf(Covered(f))))
  {
    var slot, rest := f[16..18], f[18..];
    assert f == f[..16] + (slot + rest);
    BitsOfConcat(f[..16], slot + rest);
    BitsOfConcat(slot, rest);
    BitsOfConcat(f[..16], rest);
    OddConcat(BitsOf(f[..16]), BitsOf(slot + rest));
    OddConcat(BitsOf(slot), BitsOf(rest));
    OddConcat(BitsOf(f[..16]), BitsOf(rest));
    SlotParity(slot);
  }

  lemma {:induction false} SlotParity(slot: Bytes)
    requires |slot| == 2
    ensures Odd(BitsOf(slot)) == Odd(ByteBits(slot[1]) + ByteBits(slot[0]))
  {
    var hi, lo := ByteBits(slot[1]), ByteBits(slot[0]);
    BitsOfConcat(slot[..1], slot[1..]);
    assert slot == slot[..1] + slot[1..];
    assert BitsOf(slot[..1]) == lo && BitsOf(slot[1..]) == hi;
    OddConcat(lo, hi);
    OddConcat(hi, lo);
  }

  // Every frame that passes has an even number of set bits.
  lemma {:induction false} PassingIsEven(f: Bytes)
    requires |f| >= HEADER_SIZE && ParseFrame(f).crcOk
    ensures !Odd(BitsOf(f))
  {
    hide Odd, BitsOf, Crc, CrcBits, ParseFrame, Slot, Covered, INIT;
    InitIsEven();
    PassesIffSlot(f);
    FrameParity(f);
    CrcIsBitwise(INIT, Covered(f));
    CrcParity(INIT, BitsOf(Covered(f)));
  }

  lemma InitIsEven()
    ensures !Odd(INIT)
  {
    OddTrues(INIT);
  }

  lemma {:induction false} OddTrues(b: Bits)
    requires forall i :: 0 <= i < |b| ==> b[i]
    ensures Odd(b) == (|b| % 2 == 1)
    decreases |b|
  {
    if |b| > 0 { OddTrues(b[1..]); }
  }

  /** Corruption: an odd number of bits anywhere in the frame, or covered bits
      within 16 consecutive ones and no others, or bits of the slot alone. */
  ghost predicate Corrupted(f: Bytes, g: Bytes)
    requires |f| == |g| >= HEADER_SIZE
  {
    || Odd(Xor(BitsOf(f), BitsOf(g)))
    || (f[16..18] == g[16..18] && exists p :: IsBurst(Xor(BitsOf(Covered(f)), BitsOf(Covered(g))), p))
    || (f[16..18] != g[16..18] && Covered(f) == Covered(g))
  }

  lemma {:induction false} CorruptionIsSeen(f: Bytes, g: Bytes)
    requires |f| == |g| >= HEADER_SIZE && ParseFrame(f).crcOk && Corrupted(f, g)
    ensures !ParseFrame(g).crcOk
  {
    var a, b := Covered(f), Covered(g);
    if Odd(Xor(BitsOf(f), BitsOf(g))) {
      OddXor(BitsOf(f), BitsOf(g));
      PassingIsEven(f);
      if ParseFrame(g).crcOk { PassingIsEven(g); }
    } else if f[16..18] == g[16..18] {
      var p :| IsBurst(Xor(BitsOf(a), BitsOf(b)), p);
      CorruptionChangesCrc(a, b, p);
      if CrcOf(a) == CrcOf(b) { ValueIsInjective(Crc(INIT, a), Crc(INIT, b)); }
    } else {
      SlotDamageIsSeen(f, g);
    }
  }

  // Damage to the CRC slot alone is seen too.
  lemma {:induction false} SlotDamageIsSeen(f: Bytes, g: Bytes)
    requires |f| == |g| >= HEADER_SIZE && ParseFrame(f).crcOk
    requires Covered(f) == Covered(g) && f[16..18] != g[16..18]
    ensures !ParseFrame(g).crcOk
  {
    LEInverts(f[16..18]);
    LEInverts(g[16..18]);
  }

  // ---- The subscriber ---------------------------------------------------

  datatype Error = HeaderTooShort | CrcMismatch(counter: nat) | StaleSample(counter: nat) | SequenceGap(counter: nat)

  datatype SubState = SubState(last: nat, hasFirst: bool)

  /** What one sample does: the state after it, what goes to channel() and what
      to errors(). */
  datatype Verdict = Verdict(state: SubState, delivered: Option<Bytes>, error: Option<Error>)

  const FRESH := SubState(0, false)

  function Check(cfg: Config, s: SubState, raw: Bytes, now: int): Verdict {
    if |raw| < HEADER_SIZE then Verdict(s, None, Some(HeaderTooShort))
    else
      var f := ParseFrame(raw);
      if !f.crcOk then Verdict(s, None, Some(CrcMismatch(f.counter)))
      else if cfg.maxAge > 0 && now - f.ts > cfg.maxAge then Verdict(s, None, Some(StaleSample(f.counter)))
      else
        var gap := s.hasFirst && f.counter != (s.last + 1) % U32;
        Verdict(SubState(f.counter, true), Some(f.payload), if gap then Some(SequenceGap(f.counter)) else None)
  }

  /** A frame as it was made is delivered unless it is older than a positive
      maximum age; then it is reported as stale and leaves no trace. */
  lemma {:induction false} FrameIsDelivered(
    cfg: Config, s: SubState, counter: nat, ts: int, payload: Bytes, now: int)
    requires cfg.Valid() && counter < U32 && -(U64 as int) <= 2 * ts < U64
    ensures var v := Check(cfg, s, MakeFrame(cfg, counter, ts, payload), now);
      if 0 < cfg.maxAge < now - ts then v == Verdict(s, None, Some(StaleSample(counter)))
      else v.delivered == Some(payload) && v.state == SubState(counter, true)
           && (v.error.Some? ==> v.error == Some(SequenceGap(counter)))
           && (v.error.None? <==> (s.hasFirst ==> counter == (s.last + 1) % 0x1_0000_0000))
  {
    FrameRoundTrip(cfg, counter, ts, payload);
  }

  /** Whatever bytes arrive: fewer than 18 are reported as too short, and nothing
      is delivered unless the CRC fits. */
  lemma {:induction false} OnlyWholeFramesPass(cfg: Config, s: SubState, raw: Bytes, now: int)
    ensures var v := Check(cfg, s, raw, now);
      && (|raw| < 18 ==> v == Verdict(s, None, Some(HeaderTooShort)))
      && (v.delivered.Some? ==> |raw| >= 18 && v.delivered.value == raw[18..]
                                && Two(raw, 16) == CrcOf(raw[..16] + raw[18..]))
      && (v.delivered.None? ==> v.state == s && v.error.Some?)
  {
    if |raw| >= 18 { TwoIs(raw, 16); }
  }

  lemma TwoIs(b: Bytes, at: nat)
    requires at + 2 <= |b|
    ensures UnLE(b[at..at + 2]) == Two(b, at)
  {
    var s := b[at..at + 2];
    assert |s[1..][1..]| == 0 && UnLE(s[1..]) == s[1] as int;
  }

  // A corrupted frame is reported, is not delivered, and leaves no trace.
  lemma {:induction false} CorruptedFrameIsRejected(
    cfg: Config, s: SubState, counter: nat, ts: int, payload: Bytes, g: Bytes, now: int)
    requires cfg.Valid() && counter < U32 && -(U64 as int) <= 2 * ts < U64
    requires var f := MakeFrame(cfg, counter, ts, payload); |g| == |f| && Corrupted(f, g)
    ensures var v := Check(cfg, s, g, now);
      v.state == s && v.delivered == None && v.error.Some? && v.error.value.CrcMismatch?
  {
    var f := MakeFrame(cfg, counter, ts, payload);
    FrameRoundTrip(cfg, counter, ts, payload);
    CorruptionIsSeen(f, g);
  }

  /** One frame on its way: the number of the write it carries (the counter is
      that number modulo 2^32), its timestamp and when it arrives. */
  datatype Arrival = Arrival(write: nat, ts: int, payload: Bytes, now: int)

  predicate InTime(cfg: Config, a: Arrival) {
    && -(U64 as int) <= 2 * a.ts < U64
    && (cfg.maxAge > 0 ==> a.now - a.ts <= cfg.maxAge)
  }

  predicate OnTime(cfg: Config, arrivals: seq<Arrival>) {
    forall i :: 0 <= i < |arrivals| ==> InTime(cfg, arrivals[i])
  }

  function Take(cfg: Config, s: SubState, a: Arrival): Verdict
    requires cfg.Valid() && InTime(cfg, a)
  {
    Check(cfg, s, MakeFrame(cfg, a.write % U32, a.ts, a.payload), a.now)
  }

  function Receive(cfg: Config, s: SubState, arrivals: seq<Arrival>): (vs: seq<Verdict>)
    requires cfg.Valid() && OnTime(cfg, arrivals)
    ensures |vs| == |arrivals|
    decreases |arrivals|
  {
    if |arrivals| == 0 then []
    else
      var v := Take(cfg, s, arrivals[0]);
      [v] + Receive(cfg, v.state, arrivals[1..])
  }

  // What arrival k must do, judged by the counters alone.
  function Expected(s: SubState, arrivals: seq<Arrival>, k: nat): Verdict
    requires k < |arrivals|
  {
    var c := arrivals[k].write % U32;
    Verdict(SubState(c, true), Some(arrivals[k].payload),
            if Follows(s, arrivals, k) then None else Some(SequenceGap(c)))
  }

  lemma {:induction false} InTimeIsAccepted(cfg: Config, s: SubState, a: Arrival)
    requires cfg.Valid() && InTime(cfg, a)
    ensures var c := a.write % U32;
      Take(cfg, s, a) ==
      Verdict(SubState(c, true), Some(a.payload),
              if s.hasFirst && c != (s.last + 1) % U32 then Some(SequenceGap(c)) else None)
  {
    FrameRoundTrip(cfg, a.write % U32, a.ts, a.payload);
  }

  /** Whatever frames arrive in whatever order, each is delivered, and a gap is
      reported exactly where a counter does not follow the one before it. */
  lemma {:induction false} GapsAreExact(cfg: Config, s: SubState, arrivals: seq<Arrival>, k: nat)
    requires cfg.Valid() && OnTime(cfg, arrivals) && k < |arrivals|
    ensures Receive(cfg, s, arrivals)[k] == Expected(s, arrivals, k)
    decreases k
  {
    InTimeIsAccepted(cfg, s, arrivals[0]);
    if k > 0 {
      var s' := SubState(arrivals[0].write % U32, true);
      GapsAreExact(cfg, s', arrivals[1..], k - 1);
      ExpectedLater(s, s', arrivals, k);
    }
  }

  lemma {:induction false} ExpectedLater(s: SubState, s': SubState, arrivals: seq<Arrival>, k: nat)
    requires 0 < k < |arrivals| && s' == SubState(arrivals[0].write % U32, true)
    ensures Expected(s', arrivals[1..], k - 1) == Expected(s, arrivals, k)
  {}

  predicate Follows(s: SubState, arrivals: seq<Arrival>, k: nat)
    requires k < |arrivals|
  {
    if k > 0 then arrivals[k].write % U32 == (arrivals[k - 1].write % U32 + 1) % U32
    else s.hasFirst ==> arrivals[0].write % U32 == (s.last + 1) % U32
  }

  // A publisher's writes, received in order and without loss, raise no error.
  lemma {:induction false} LosslessRunIsClean(cfg: Config, s: SubState, arrivals: seq<Arrival>, first: nat, k: nat)
    requires cfg.Valid() && OnTime(cfg, arrivals) && !s.hasFirst && k < |arrivals|
    requires forall i :: 0 <= i < |arrivals| ==> arrivals[i].write == first + i
    ensures var v := Receive(cfg, s, arrivals)[k];
      v.delivered == Some(arrivals[k].payload) && v.error == None
  {
    GapsAreExact(cfg, s, arrivals, k);
    if k > 0 {
      ModSucc(arrivals[k - 1].write);
    }
  }

  lemma {:induction false} ModSucc(n: nat)
    ensures (n + 1) % U32 == (n % U32 + 1) % U32
  {
    var q, r := n / U32, n % U32;
    assert n == U32 * q + r;
    if r + 1 == U32 { assert n + 1 == U32 * (q + 1); }
  }

  class Publisher {
    const cfg: Config
    var counter: nat

    constructor (cfg: Config)
      ensures this.cfg == cfg && counter == 0
    {
      this.cfg := cfg;
      counter := 0;
    }

    // Write number n carries counter n modulo 2^32.
    method Write(payload: Bytes, now: int) returns (frame: Bytes)
      requires cfg.Valid() && counter < U32 && -(U64 as int) <= 2 * now < U64
      modifies this
      ensures counter == (old(counter) + 1) % U32
      ensures frame == MakeFrame(cfg, counter, now, payload)
    {
      counter := (counter + 1) % U32;
      var head := LE(cfg.dataId, 2) + LE(cfg.sourceId, 2) + LE(counter, 4) + LE(AsU64(now), 8);
      var crc := ComputeCrc(head + payload);
      frame := head + LE(ValueOf(crc), 2) + payload;
    }
  }

  class Subscriber {
    const cfg: Config
    var lastCounter: nat
    var hasFirst: bool
    var channel: seq<Bytes>    // holds up to 64 samples
    var errors: seq<Error>     // holds up to 32 errors

    function State(): SubState reads this { SubState(lastCounter, hasFirst) }

    constructor (cfg: Config)
      ensures this.cfg == cfg && State() == FRESH && channel == [] && errors == []
    {
      this.cfg := cfg;
      lastCounter, hasFirst, channel, errors := 0, false, [], [];
    }

    method EmitError(e: Error)
      modifies this`errors
      ensures errors == if |old(errors)| < 32 then old(errors) + [e] else old(errors)
    {
      if |errors| < 32 { errors := errors + [e]; }
    }

    method Process(raw: Bytes, now: int)
      modifies this
      ensures var v := Check(cfg, old(State()), raw, now);
        && State() == v.state
        && channel == (if v.delivered.Some? && |old(channel)| < 64 then old(channel) + [v.delivered.value]
                       else old(channel))
        && errors == (if v.error.Some? && |old(errors)| < 32 then old(errors) + [v.error.value] else old(errors))
    {
      if |raw| < HEADER_SIZE {
        EmitError(HeaderTooShort);
        return;
      }
      var f := ParseFrame(raw);
      if !f.crcOk {
        EmitError(CrcMismatch(f.counter));
        return;
      }
      if cfg.maxAge > 0 && now - f.ts > cfg.maxAge {
        EmitError(StaleSample(f.counter));
        return;
      }
      if hasFirst && f.counter != (lastCounter + 1) % U32 {
        EmitError(SequenceGap(f.counter));
      }
      hasFirst := true;
      lastCounter := f.counter;
      if |channel| < 64 { channel := channel + [f.payload]; }
    }
  }
}
