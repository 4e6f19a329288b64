/// The RTPS submessages byte by byte, at literal offsets and with the literal
/// ids and flags (sections 8.3 and 9.4 of the DDSI-RTPS specification;
/// include/dds/rtps/types.hpp, src/rtps/types.cpp).

module WireLayout {
  import opened Octets
  import opened Rtps
  import opened Wire
  import opened Packets

  // A sequence number: its high word, then its low word.
  predicate HoldsSn(b: Bytes, at: nat, sn: SeqNum)
    requires at + 8 <= |b|
  {
    && Four(b, at) == (if sn.high < 0 then sn.high + 0x1_0000_0000 else sn.high)
    && Four(b, at + 4) == sn.low
  }

  // A submessage of this id and these flags whose length field counts the bytes
  // behind it.
  predicate IsFramed(b: Bytes, id: octet, flags: octet) {
    |b| >= 4 && b[0] == id && b[1] == flags && Two(b, 2) == (|b| - 4) % 0x1_0000
  }

  lemma SnIsHeld(b: Bytes, at: nat, sn: SeqNum)
    requires at + 8 <= |b| && b[at..at + 8] == SnBytes(sn)
    ensures HoldsSn(b, at, sn)
  {
    var hi, lo := LE(Unsigned(sn.high), 4), LE(sn.low, 4);
    assert b[at..at + 4] == b[at..at + 8][..4] == hi;
    assert b[at + 4..at + 8] == b[at..at + 8][4..] == lo;
    FourAt(b, at, Unsigned(sn.high));
    FourAt(b, at + 4, sn.low);
  }

  // The body of a submessage begins at offset 4.
  lemma BodyAt(id: octet, flags: octet, body: Bytes, b: Bytes)
    requires b == Framed(id, flags, body)
    ensures |b| == 4 + |body| && IsFramed(b, id, flags)
    ensures forall i, j {:trigger body[i..j]} :: 0 <= i <= j <= |body| ==> b[4 + i..4 + j] == body[i..j]
  {
    assert b[2..4] == LE(|body| % U16, 2);
    TwoAt(b, 2, |body| % U16);
    hide LE;
    forall i, j | 0 <= i <= j <= |body| ensures b[4 + i..4 + j] == body[i..j] {}
  }

  /** The header: "RTPS", the version, the vendor and the participant. */
  lemma HeaderLayout(h: Header)
    ensures var b := HeaderBytes(h);
      && |b| == 20 && b[..4] == ['R' as int, 'T' as int, 'P' as int, 'S' as int]
      && b[4] == h.major && b[5] == h.minor && (b[6], b[7]) == h.vendor && b[8..] == h.prefix
  {
    var b := HeaderBytes(h);
    assert b[..4] == MAGIC && b[8..] == h.prefix;
  }

  lemma DataFields(ds: DataSubmessage, body: Bytes)
    requires body == DataHead(ds) + ds.payload
    ensures body[..2] == LE(0, 2) && body[2..4] == LE(16, 2) && body[4..8] == ds.reader && body[8..12] == ds.writer
    ensures body[12..20] == SnBytes(ds.seqNum) && body[20..|body|] == ds.payload
  {
    hide LE, SnBytes;
  }

  lemma FragFields(f: DataFrag, body: Bytes)
    requires body == FragHead(f) + f.payload
    ensures body[..2] == LE(0, 2) && body[2..4] == LE(0, 2) && body[4..8] == f.reader && body[8..12] == f.writer
    ensures body[12..20] == SnBytes(f.seqNum) && body[32..|body|] == f.payload
    ensures body[20..24] == LE(f.start, 4) && body[24..26] == LE(f.count, 2)
    ensures body[26..28] == LE(f.fragSize, 2) && body[28..32] == LE(f.dataSize, 4)
  {
    hide LE, SnBytes, FragNumbers;
    var head := LE(0, 2) + LE(0, 2) + f.reader + f.writer + SnBytes(f.seqNum);
    assert body == head + FragNumbers(f) + f.payload;
    FragNumberFields(f);
    var n := FragNumbers(f);
    assert body[20..24] == n[..4] && body[24..26] == n[4..6] && body[26..28] == n[6..8] && body[28..32] == n[8..12];
  }

  lemma FragNumberFields(f: DataFrag)
    ensures var n := FragNumbers(f);
      n[..4] == LE(f.start, 4) && n[4..6] == LE(f.count, 2) && n[6..8] == LE(f.fragSize, 2)
      && n[8..12] == LE(f.dataSize, 4)
  {
    hide LE;
  }

  /** DATA: 0x15, a payload and no inline QoS, which begins 16 bytes behind the
      offset that says so. */
  lemma DataLayout(ds: DataSubmessage)
    ensures var b := DataBytes(ds);
      && |b| == 24 + |ds.payload| && IsFramed(b, 0x15, 0x05)
      && Two(b, 4) == 0 && Two(b, 6) == 16
      && b[8..12] == ds.reader && b[12..16] == ds.writer && HoldsSn(b, 16, ds.seqNum) && b[24..] == ds.payload
  {
    var body, b := DataHead(ds) + ds.payload, DataBytes(ds);
    DataFields(ds, body);
    hide LE, DataHead, SnBytes, IsFramed, HoldsSn;
    BodyAt(0x15, 0x05, body, b);
    assert body[0..2] == body[..2];
    TwoAt(b, 4, 0);
    TwoAt(b, 6, 16);
    SnIsHeld(b, 16, ds.seqNum);
    assert b[24..] == b[24..|b|];
  }

  /** DATA_FRAG: 0x16, first fragment, how many, their size and the sample's. */
  lemma FragLayout(f: DataFrag)
    ensures var b := FragBytes(f);
      && |b| == 36 + |f.payload| && IsFramed(b, 0x16, 0x01)
      && Two(b, 4) == 0 && Two(b, 6) == 0
      && b[8..12] == f.reader && b[12..16] == f.writer && HoldsSn(b, 16, f.seqNum)
      && Four(b, 24) == f.start && Two(b, 28) == f.count && Two(b, 30) == f.fragSize && Four(b, 32) == f.dataSize
      && b[36..] == f.payload
  {
    var body, b := FragHead(f) + f.payload, FragBytes(f);
    FragFields(f, body);
    hide LE, FragHead, SnBytes, IsFramed, HoldsSn;
    BodyAt(0x16, 0x01, body, b);
    assert body[0..2] == body[..2];
    TwoAt(b, 4, 0);
    TwoAt(b, 6, 0);
    SnIsHeld(b, 16, f.seqNum);
    FourAt(b, 24, f.start);
    TwoAt(b, 28, f.count);
    TwoAt(b, 30, f.fragSize);
    FourAt(b, 32, f.dataSize);
    assert b[36..] == b[36..|b|];
  }

  /** HEARTBEAT: 0x07, first and last number, and its count. */
  lemma HeartbeatLayout(hb: Heartbeat)
    ensures var b := HeartbeatBytes(hb);
      && |b| == 32 && IsFramed(b, 0x07, 0x01) && Two(b, 2) == 28
      && b[4..8] == hb.reader && b[8..12] == hb.writer && HoldsSn(b, 12, hb.first) && HoldsSn(b, 20, hb.last)
      && Four(b, 28) == if hb.count < 0 then hb.count + 0x1_0000_0000 else hb.count
  {
    var body, b := HeartbeatBody(hb), HeartbeatBytes(hb);
    HeartbeatFields(hb);
    hide LE, HeartbeatBody, SnBytes, HoldsSn;
    BodyAt(0x07, 0x01, body, b);
    assert body[0..4] == body[..4];
    SnIsHeld(b, 12, hb.first);
    SnIsHeld(b, 20, hb.last);
    FourAt(b, 28, Unsigned(hb.count));
  }

  /** ACKNACK: 0x06, the base, 32 bits, the bitmap, and its count. */
  lemma AckNackLayout(an: AckNack)
    ensures var b := AckNackBytes(an);
      && |b| == 32 && IsFramed(b, 0x06, 0x01) && Two(b, 2) == 28
      && b[4..8] == an.reader && b[8..12] == an.writer && HoldsSn(b, 12, an.base)
      && Four(b, 20) == 32 && Four(b, 24) == an.bitmap
      && Four(b, 28) == if an.count < 0 then an.count + 0x1_0000_0000 else an.count
  {
    var body, b := AckNackBody(an), AckNackBytes(an);
    AckNackFields(an);
    assert body[16..20] == LE(32, 4);
    hide LE, AckNackBody, SnBytes, HoldsSn;
    BodyAt(0x06, 0x01, body, b);
    assert body[0..4] == body[..4];
    SnIsHeld(b, 12, an.base);
    FourAt(b, 20, 32);
    FourAt(b, 24, an.bitmap);
    FourAt(b, 28, Unsigned(an.count));
  }

  /** GAP: 0x08, its start, a list whose base is the end's low word plus one, and
      no bits. */
  lemma GapLayout(g: GapMessage)
    ensures var b := GapBytes(g);
      && |b| == 32 && IsFramed(b, 0x08, 0x01) && Two(b, 2) == 28
      && b[4..8] == g.reader && b[8..12] == g.writer && HoldsSn(b, 12, g.start)
      && HoldsSn(b, 20, SeqNum(g.end.high, (g.end.low + 1) % 0x1_0000_0000)) && Four(b, 28) == 0
  {
    var body, b := GapBody(g), GapBytes(g);
    GapFields(g);
    hide LE, GapBody, SnBytes, HoldsSn;
    BodyAt(0x08, 0x01, body, b);
    assert body[0..4] == body[..4];
    SnIsHeld(b, 12, g.start);
    SnIsHeld(b, 20, GapBase(g.end));
    FourAt(b, 28, 0);
  }

  lemma GapFields(g: GapMessage)
    ensures var body := GapBody(g);
      && body[..4] == g.reader && body[4..8] == g.writer && body[8..16] == SnBytes(g.start)
      && body[16..24] == SnBytes(GapBase(g.end)) && body[24..28] == LE(0, 4)
  {
    hide LE, SnBytes;
    var body := GapBody(g);
    var ids := g.reader + g.writer;
    FieldAt(ids, SnBytes(g.start), SnBytes(GapBase(g.end)) + LE(0, 4), 8, 8);
    FieldAt(ids + SnBytes(g.start), SnBytes(GapBase(g.end)), LE(0, 4), 16, 8);
    FieldAt(ids + SnBytes(g.start) + SnBytes(GapBase(g.end)), LE(0, 4), [], 24, 4);
    assert body == ids + SnBytes(g.start) + (SnBytes(GapBase(g.end)) + LE(0, 4));
  }

  // ---- What is read from any bytes --------------------------------------

  // The four bytes at an offset as a signed number.
  function SignedAt(b: Bytes, at: nat): int
    requires at + 4 <= |b|
  {
    if Four(b, at) >= 0x8000_0000 then Four(b, at) - 0x1_0000_0000 else Four(b, at)
  }

  // The sequence number at an offset.
  predicate IsSnAt(b: Bytes, at: nat, sn: SeqNum)
    requires at + 8 <= |b|
  {
    sn.low == Four(b, at + 4) && sn.high == SignedAt(b, at)
  }

  lemma TwoIs(b: Bytes, at: nat)
    requires at + 2 <= |b|
    ensures U16At(b, at) == Two(b, at)
  {
    LEInverts(b[at..at + 2]);
    assert Pow256(2) == U16;
    TwoAt(b, at, UnLE(b[at..at + 2]));
  }

  lemma FourIs(b: Bytes, at: nat)
    requires at + 4 <= |b|
    ensures U32At(b, at) == Four(b, at)
  {
    LEInverts(b[at..at + 4]);
    assert Pow256(4) == U32;
    FourAt(b, at, UnLE(b[at..at + 4]));
  }

  lemma SnIs(b: Bytes, at: nat)
    requires at + 8 <= |b|
    ensures IsSnAt(b, at, SnAt(b, at))
  {
    FourIs(b, at);
    FourIs(b, at + 4);
  }

  // A submessage of this id whose declared body is there, and how long it is.
  predicate HasBody(b: Bytes, id: octet, n: nat) {
    |b| >= 4 && b[0] == id && n == Two(b, 2) && 4 + n <= |b|
  }

  lemma BodyIs(b: Bytes, id: octet)
    ensures BodyOf(b, id).Some? <==> exists n :: HasBody(b, id, n)
    ensures forall n :: HasBody(b, id, n) ==> BodyOf(b, id) == Some((b[1], b[4..4 + n]))
  {
    if |b| >= 4 {
      TwoIs(b, 2);
      assert BodyOf(b, id).Some? ==> HasBody(b, id, Two(b, 2));
    }
  }

  // What stands in the body stands four bytes on in the submessage.
  lemma InBody(b: Bytes, body: Bytes, at: nat)
    requires 4 + |body| <= |b| && body == b[4..4 + |body|]
    ensures at + 4 <= |body| ==> Four(body, at) == Four(b, 4 + at)
    ensures at + 2 <= |body| ==> Two(body, at) == Two(b, 4 + at)
  {}

  lemma SliceInBody(b: Bytes, body: Bytes, i: nat, j: nat)
    requires i <= j <= |body| && 4 + |body| <= |b| && body == b[4..4 + |body|]
    ensures body[i..j] == b[4 + i..4 + j]
  {
    var x, y := body[i..j], b[4 + i..4 + j];
    forall k | 0 <= k < |x| ensures x[k] == y[k] {
      assert x[k] == body[i + k] && y[k] == b[4 + (i + k)];
    }
    assert x == y;
  }

  lemma SnInBody(b: Bytes, body: Bytes, at: nat)
    requires at + 8 <= |body| && 4 + |body| <= |b| && body == b[4..4 + |body|]
    ensures IsSnAt(b, 4 + at, SnAt(body, at))
  {
    SnIs(body, at);
    InBody(b, body, at);
    InBody(b, body, at + 4);
  }

  /** DATA is decoded exactly when id 0x15 has a declared body of at least 20
      bytes; the payload is the rest of it, and only with the data flag. */
  lemma DataIsDecoded(b: Bytes, n: nat)
    ensures DecodeData(b).Some? <==> exists k :: HasBody(b, 0x15, k) && k >= 20
    ensures HasBody(b, 0x15, n) && n >= 20 ==>
      var ds := DecodeData(b).value;
      && ds.reader == b[8..12] && ds.writer == b[12..16] && IsSnAt(b, 16, ds.seqNum)
      && ds.payload == if b[1] / 4 % 2 == 1 then b[24..4 + n] else []
  {
    hide BodyOf, SnAt, Four, Two, IsSnAt;
    BodyIs(b, 0x15);
    if HasBody(b, 0x15, n) && n >= 20 {
      var body := b[4..4 + n];
      SnInBody(b, body, 12);
      SliceInBody(b, body, 4, 8);
      SliceInBody(b, body, 8, 12);
      SliceInBody(b, body, 20, n);
      assert body[20..n] == body[20..];
    }
  }

  /** DATA_FRAG: id 0x16 and at least 32 bytes, the payload the rest of them. */
  lemma FragIsDecoded(b: Bytes, n: nat)
    ensures DecodeFrag(b).Some? <==> exists k :: HasBody(b, 0x16, k) && k >= 32
    ensures HasBody(b, 0x16, n) && n >= 32 ==>
      var f := DecodeFrag(b).value;
      && f.reader == b[8..12] && f.writer == b[12..16] && IsSnAt(b, 16, f.seqNum)
      && f.start == Four(b, 24) && f.count == Two(b, 28) && f.fragSize == Two(b, 30) && f.dataSize == Four(b, 32)
      && f.payload == b[36..4 + n]
  {
    hide BodyOf, SnAt, Four, Two, IsSnAt;
    BodyIs(b, 0x16);
    if HasBody(b, 0x16, n) && n >= 32 {
      var body := b[4..4 + n];
      FragNumbersAt(b, body);
      SnInBody(b, body, 12);
      SliceInBody(b, body, 4, 8);
      SliceInBody(b, body, 8, 12);
      SliceInBody(b, body, 32, n);
      assert body[32..n] == body[32..];
    }
  }

  lemma FragNumbersAt(b: Bytes, body: Bytes)
    requires |body| >= 32 && 4 + |body| <= |b| && body == b[4..4 + |body|]
    ensures U32At(body, 20) == Four(b, 24) && U16At(body, 24) == Two(b, 28)
    ensures U16At(body, 26) == Two(b, 30) && U32At(body, 28) == Four(b, 32)
  {
    hide Four, Two;
    FourIs(body, 20);
    TwoIs(body, 24);
    TwoIs(body, 26);
    FourIs(body, 28);
    InBody(b, body, 20);
    InBody(b, body, 24);
    InBody(b, body, 26);
    InBody(b, body, 28);
  }

  /** HEARTBEAT and ACKNACK: ids 0x07 and 0x06 and at least 28 bytes. */
  lemma RepliesAreDecoded(b: Bytes, n: nat)
    ensures DecodeHeartbeat(b).Some? <==> exists k :: HasBody(b, 0x07, k) && k >= 28
    ensures DecodeAckNack(b).Some? <==> exists k :: HasBody(b, 0x06, k) && k >= 28
    ensures HasBody(b, 0x07, n) && n >= 28 ==>
      var hb := DecodeHeartbeat(b).value;
      && hb.reader == b[4..8] && hb.writer == b[8..12] && IsSnAt(b, 12, hb.first) && IsSnAt(b, 20, hb.last)
      && hb.count == SignedAt(b, 28)
    ensures HasBody(b, 0x06, n) && n >= 28 ==>
      var an := DecodeAckNack(b).value;
      && an.reader == b[4..8] && an.writer == b[8..12] && IsSnAt(b, 12, an.base) && an.bitmap == Four(b, 24)
      && an.count == SignedAt(b, 28)
  {
    hide BodyOf, SnAt, Four, Two, IsSnAt;
    BodyIs(b, 0x07);
    BodyIs(b, 0x06);
    if (HasBody(b, 0x07, n) || HasBody(b, 0x06, n)) && n >= 28 {
      var body := b[4..4 + n];
      SnInBody(b, body, 8);
      SnInBody(b, body, 16);
      FourIs(body, 20);
      FourIs(body, 24);
      InBody(b, body, 20);
      InBody(b, body, 24);
      SliceInBody(b, body, 0, 4);
      SliceInBody(b, body, 4, 8);
    }
  }

  // ---- Packets ----------------------------------------------------------

  /** A packet: the 20 bytes of the header, with version 2.3 and vendor "cp", and
      the submessages. */
  lemma PacketLayout(prefix: Prefix, submessages: Bytes)
    ensures var b := Packet(prefix, submessages);
      && b[..4] == ['R' as int, 'T' as int, 'P' as int, 'S' as int]
      && b[4] == 2 && b[5] == 3 && b[6] == 'c' as int && b[7] == 'p' as int && b[8..20] == prefix
      && b[20..] == submessages
  {
    var h := OurHeader(prefix);
    HeaderLayout(h);
    var b, head := Packet(prefix, submessages), HeaderBytes(h);
    assert b[..4] == head[..4] && b[8..20] == head[8..] && b[20..] == submessages;
  }

  /** The encapsulation: CDR little-endian is written, CDR and parameter-list CDR
      little-endian are read. */
  lemma EncapsulationLayout(payload: Bytes, b: Bytes)
    ensures Wrap(payload) == [0x01, 0x00, 0x00, 0x00] + payload
    ensures Unwrap(b).Some? <==> |b| >= 4 && (b[0] == 0x01 || b[0] == 0x03) && b[1] == 0x00
    ensures Unwrap(b).Some? ==> Unwrap(b).value == b[4..]
  {
    assert LE(1, 2) == [1] + ([0] + LE(0, 0)) && LE(0, 2) == [0] + ([0] + LE(0, 0));
    if |b| >= 4 {
      LEInverts(b[0..2]);
      TwoAt(b, 0, UnLE(b[0..2]));
    }
  }
}
