/// The RTPS wire format (src/rtps/types.cpp, src/rtps/cdr.cpp, and the message
/// building and receive path of src/rtps/participant.cpp).

module Wire {
  import opened Octets
  import opened Rtps

  datatype Header = Header(major: octet, minor: octet, vendor: (octet, octet), prefix: Prefix)

  datatype DataSubmessage = DataSubmessage(reader: EntityId, writer: EntityId, seqNum: SeqNum, payload: Bytes)
  datatype Heartbeat = Heartbeat(reader: EntityId, writer: EntityId, first: SeqNum, last: SeqNum, count: i32)
  datatype AckNack = AckNack(reader: EntityId, writer: EntityId, base: SeqNum, bitmap: u32, count: i32)
  datatype GapMessage = GapMessage(reader: EntityId, writer: EntityId, start: SeqNum, end: SeqNum)

  const ID_DATA: octet := 0x15
  const ID_DATA_FRAG: octet := 0x16
  const ID_GAP: octet := 0x08
  const ID_HEARTBEAT: octet := 0x07
  const ID_ACKNACK: octet := 0x06
  const FLAG_ENDIANNESS: octet := 0x01
  const FLAG_DATA: octet := 0x04
  const MAGIC: Bytes := [0x52, 0x54, 0x50, 0x53]    // "RTPS"

  // ---- What the encoders write ------------------------------------------

  function SnBytes(sn: SeqNum): (r: Bytes)
    ensures |r| == 8
  {
    LE(Unsigned(sn.high), 4) + LE(sn.low, 4)
  }

  function HeaderBytes(h: Header): (r: Bytes)
    ensures |r| == 20
  {
    MAGIC + [h.major, h.minor, h.vendor.0, h.vendor.1] + h.prefix
  }

  // octetsToNextHeader is the body's length narrowed to 16 bits.
  function Framed(id: octet, flags: octet, body: Bytes): (r: Bytes)
    ensures |r| == 4 + |body|
  {
    [id, flags] + LE(|body| % U16, 2) + body
  }

  function DataHead(ds: DataSubmessage): (r: Bytes)
    ensures |r| == 20
  {
    LE(0, 2) + LE(16, 2) + ds.reader + ds.writer + SnBytes(ds.seqNum)
  }

  function DataBytes(ds: DataSubmessage): Bytes {
    Framed(ID_DATA, FLAG_ENDIANNESS + FLAG_DATA, DataHead(ds) + ds.payload)
  }

  function HeartbeatBody(hb: Heartbeat): (r: Bytes)
    ensures |r| == 28
  {
    (hb.reader + hb.writer) + SnBytes(hb.first) + SnBytes(hb.last) + LE(Unsigned(hb.count), 4)
  }

  function HeartbeatBytes(hb: Heartbeat): Bytes { Framed(ID_HEARTBEAT, FLAG_ENDIANNESS, HeartbeatBody(hb)) }

  function AckNackBody(an: AckNack): (r: Bytes)
    ensures |r| == 28
  {
    (an.reader + an.writer) + SnBytes(an.base) + LE(32, 4) + LE(an.bitmap, 4) + LE(Unsigned(an.count), 4)
  }

  function AckNackBytes(an: AckNack): Bytes { Framed(ID_ACKNACK, FLAG_ENDIANNESS, AckNackBody(an)) }

  // The first number after the gap: one more in the low word alone.
  function GapBase(end: SeqNum): SeqNum { SeqNum(end.high, (end.low + 1) % U32) }

  function GapBody(g: GapMessage): (r: Bytes)
    ensures |r| == 28
  {
    (g.reader + g.writer) + SnBytes(g.start) + SnBytes(GapBase(g.end)) + LE(0, 4)
  }

  function GapBytes(g: GapMessage): Bytes { Framed(ID_GAP, FLAG_ENDIANNESS, GapBody(g)) }

  function FragHead(f: DataFrag): (r: Bytes)
    ensures |r| == 32
  {
    LE(0, 2) + LE(0, 2) + f.reader + f.writer + SnBytes(f.seqNum)
    + FragNumbers(f)
  }

  function FragNumbers(f: DataFrag): (r: Bytes)
    ensures |r| == 12
  {
    LE(f.start, 4) + LE(f.count, 2) + LE(f.fragSize, 2) + LE(f.dataSize, 4)
  }

  function FragBytes(f: DataFrag): Bytes { Framed(ID_DATA_FRAG, FLAG_ENDIANNESS, FragHead(f) + f.payload) }

  // ---- What the decoders read -------------------------------------------

  function U16At(b: Bytes, at: nat): u16
    requires at + 2 <= |b|
  {
    LEInverts(b[at..at + 2]);
    assert Pow256(2) == U16;
    UnLE(b[at..at + 2])
  }

  function U32At(b: Bytes, at: nat): u32
    requires at + 4 <= |b|
  {
    LEInverts(b[at..at + 4]);
    assert Pow256(4) == U32;
    UnLE(b[at..at + 4])
  }

  function SnAt(b: Bytes, at: nat): SeqNum
    requires at + 8 <= |b|
  {
    SeqNum(Signed(U32At(b, at)), U32At(b, at + 4))
  }

  function DecodeHeader(b: Bytes): Option<Header> {
    if |b| < 20 || b[..4] != MAGIC then None
    else Some(Header(b[4], b[5], (b[6], b[7]), b[8..20]))
  }

  // The body of a submessage of kind `id` at the front of b, and its flags.
  function BodyOf(b: Bytes, id: octet): Option<(octet, Bytes)> {
    if |b| < 4 || b[0] != id || 4 + U16At(b, 2) > |b| then None
    else Some((b[1], b[4..4 + U16At(b, 2)]))
  }

  function DecodeData(b: Bytes): Option<DataSubmessage> {
    match BodyOf(b, ID_DATA)
    case None => None
    case Some((flags, body)) =>
      if |body| < 20 then None
      else Some(DataSubmessage(body[4..8], body[8..12], SnAt(body, 12),
                               if flags / FLAG_DATA % 2 == 1 && |body| > 20 then body[20..] else []))
  }

  function DecodeHeartbeat(b: Bytes): Option<Heartbeat> {
    match BodyOf(b, ID_HEARTBEAT)
    case None => None
    case Some((_, body)) =>
      if |body| < 28 then None
      else Some(Heartbeat(body[..4], body[4..8], SnAt(body, 8), SnAt(body, 16), Signed(U32At(body, 24))))
  }

  function DecodeAckNack(b: Bytes): Option<AckNack> {
    match BodyOf(b, ID_ACKNACK)
    case None => None
    case Some((_, body)) =>
      if |body| < 28 then None
      else Some(AckNack(body[..4], body[4..8], SnAt(body, 8), U32At(body, 20), Signed(U32At(body, 24))))
  }

  function DecodeFrag(b: Bytes): Option<DataFrag> {
    match BodyOf(b, ID_DATA_FRAG)
    case None => None
    case Some((_, body)) =>
      if |body| < 32 then None
      else Some(DataFrag(body[4..8], body[8..12], SnAt(body, 12), U32At(body, 20), U16At(body, 24),
                         U16At(body, 26), U32At(body, 28), body[32..]))
  }

  // ---- Round trips ------------------------------------------------------

  // A field stands where the fields before it end.
  lemma FieldAt(a: Bytes, b: Bytes, c: Bytes, at: nat, n: nat)
    requires at == |a| && n == |b|
    ensures (a + b + c)[at..at + n] == b && (a + b)[at..at + n] == b
  {}

  // A number written at `at` is read back from there.
  lemma NumberAt(b: Bytes, at: nat, n: nat, k: nat)
    requires at + k <= |b| && b[at..at + k] == LE(n, k) && n < Pow256(k)
    ensures UnLE(b[at..at + k]) == n
  {
    UnLEInverts(n, k);
  }

  lemma SnRead(b: Bytes, at: nat, sn: SeqNum)
    requires at + 8 <= |b| && b[at..at + 8] == SnBytes(sn)
    ensures SnAt(b, at) == sn
  {
    var hi, lo := LE(Unsigned(sn.high), 4), LE(sn.low, 4);
    assert Pow256(4) == U32;
    assert b[at..at + 4] == b[at..at + 8][..4] == hi;
    assert b[at + 4..at + 8] == b[at..at + 8][4..] == lo;
    NumberAt(b, at, Unsigned(sn.high), 4);
    NumberAt(b, at + 4, sn.low, 4);
  }

  lemma FramedHasBody(id: octet, flags: octet, body: Bytes)
    ensures var b := Framed(id, flags, body);
      && b[0] == id && b[1] == flags && U16At(b, 2) == |body| % U16
      && BodyOf(b, id) == Some((flags, body[..|body| % U16]))
  {
    var b := Framed(id, flags, body);
    assert Pow256(2) == U16;
    assert b[2..4] == LE(|body| % U16, 2);
    NumberAt(b, 2, |body| % U16, 2);
    assert b[4..4 + |body| % U16] == body[..|body| % U16];
  }

  lemma HeaderRoundTrip(h: Header, rest: Bytes)
    ensures DecodeHeader(HeaderBytes(h) + rest) == Some(h)
  {
    var b := HeaderBytes(h) + rest;
    assert b[..4] == MAGIC;
    assert b[8..20] == h.prefix;
  }

  // A body shorter than 2^16 comes back whole; a longer one cannot.
  lemma FramedWhole(id: octet, flags: octet, body: Bytes)
    ensures |body| < U16 ==> BodyOf(Framed(id, flags, body), id) == Some((flags, body))
    ensures |body| >= U16 ==> |BodyOf(Framed(id, flags, body), id).value.1| < |body|
  {
    FramedHasBody(id, flags, body);
    if |body| < U16 { assert body[..|body|] == body; }
  }

  /** A DATA submessage survives the wire exactly when its body length fits the
      16-bit octetsToNextHeader. */
  lemma DataRoundTrip(ds: DataSubmessage)
    ensures DecodeData(DataBytes(ds)) == Some(ds) <==> 20 + |ds.payload| < U16
  {
    var head, body := DataHead(ds), DataHead(ds) + ds.payload;
    FramedWhole(ID_DATA, FLAG_ENDIANNESS + FLAG_DATA, body);
    if |body| < U16 {
      assert body[4..8] == ds.reader && body[8..12] == ds.writer && body[20..] == ds.payload;
      assert body[12..20] == SnBytes(ds.seqNum);
      SnRead(body, 12, ds.seqNum);
    }
  }

  lemma FragNumbersRead(f: DataFrag, body: Bytes)
    requires body == FragHead(f) + f.payload
    ensures U32At(body, 20) == f.start && U16At(body, 24) == f.count
    ensures U16At(body, 26) == f.fragSize && U32At(body, 28) == f.dataSize
  {
    assert Pow256(4) == U32 && Pow256(2) == U16;
    assert body[20..24] == LE(f.start, 4);
    assert body[24..26] == LE(f.count, 2);
    assert body[26..28] == LE(f.fragSize, 2);
    assert body[28..32] == LE(f.dataSize, 4);
    NumberAt(body, 20, f.start, 4);
    NumberAt(body, 24, f.count, 2);
    NumberAt(body, 26, f.fragSize, 2);
    NumberAt(body, 28, f.dataSize, 4);
  }

  lemma FragRoundTrip(f: DataFrag)
    ensures DecodeFrag(FragBytes(f)) == Some(f) <==> 32 + |f.payload| < U16
  {
    var body := FragHead(f) + f.payload;
    FramedWhole(ID_DATA_FRAG, FLAG_ENDIANNESS, body);
    if |body| < U16 {
      assert body[4..8] == f.reader && body[8..12] == f.writer && body[32..] == f.payload;
      assert body[12..20] == SnBytes(f.seqNum);
      SnRead(body, 12, f.seqNum);
      FragNumbersRead(f, body);
    }
  }

  lemma HeartbeatFields(hb: Heartbeat)
    ensures var body := HeartbeatBody(hb);
      && body[..4] == hb.reader && body[4..8] == hb.writer && body[8..16] == SnBytes(hb.first)
      && body[16..24] == SnBytes(hb.last) && body[24..28] == LE(Unsigned(hb.count), 4)
  {
    hide LE, SnBytes;
    var body := HeartbeatBody(hb);
    var ids := hb.reader + hb.writer;
    FieldAt(ids, SnBytes(hb.first), SnBytes(hb.last) + LE(Unsigned(hb.count), 4), 8, 8);
    FieldAt(ids + SnBytes(hb.first), SnBytes(hb.last), LE(Unsigned(hb.count), 4), 16, 8);
    FieldAt(ids + SnBytes(hb.first) + SnBytes(hb.last), LE(Unsigned(hb.count), 4), [], 24, 4);
    assert body == ids + SnBytes(hb.first) + (SnBytes(hb.last) + LE(Unsigned(hb.count), 4));
  }

  lemma HeartbeatRoundTrip(hb: Heartbeat)
    ensures DecodeHeartbeat(HeartbeatBytes(hb)) == Some(hb)
  {
    var body := HeartbeatBody(hb);
    HeartbeatFields(hb);
    assert Pow256(4) == U32;
    hide HeartbeatBody, LE, SnBytes, Pow256;
    FramedWhole(ID_HEARTBEAT, FLAG_ENDIANNESS, body);
    SnRead(body, 8, hb.first);
    SnRead(body, 16, hb.last);
    NumberAt(body, 24, Unsigned(hb.count), 4);
  }

  lemma AckNackFields(an: AckNack)
    ensures var body := AckNackBody(an);
      && body[..4] == an.reader && body[4..8] == an.writer && body[8..16] == SnBytes(an.base)
      && body[20..24] == LE(an.bitmap, 4) && body[24..28] == LE(Unsigned(an.count), 4)
  {
    hide LE, SnBytes;
    var body := AckNackBody(an);
    var ids := an.reader + an.writer;
    var front := ids + SnBytes(an.base) + LE(32, 4);
    FieldAt(ids, SnBytes(an.base), LE(32, 4) + LE(an.bitmap, 4) + LE(Unsigned(an.count), 4), 8, 8);
    FieldAt(front, LE(an.bitmap, 4), LE(Unsigned(an.count), 4), 20, 4);
    FieldAt(front + LE(an.bitmap, 4), LE(Unsigned(an.count), 4), [], 24, 4);
    assert body == ids + SnBytes(an.base) + (LE(32, 4) + LE(an.bitmap, 4) + LE(Unsigned(an.count), 4));
  }

  lemma AckNackRoundTrip(an: AckNack)
    ensures DecodeAckNack(AckNackBytes(an)) == Some(an)
  {
    var body := AckNackBody(an);
    AckNackFields(an);
    assert Pow256(4) == U32;
    hide AckNackBody, LE, SnBytes, Pow256;
    FramedWhole(ID_ACKNACK, FLAG_ENDIANNESS, body);
    SnRead(body, 8, an.base);
    NumberAt(body, 20, an.bitmap, 4);
    NumberAt(body, 24, Unsigned(an.count), 4);
  }

  /** The bitmapBase of a GAP is the number after the gap exactly when the low
      word does not carry. */
  lemma GapBaseIsNext(end: SeqNum)
    ensures ToU64(GapBase(end)) == ToU64(end) + 1 <==> end.low != 0xFFFF_FFFF
  {}

  // ---- The encoders -----------------------------------------------------

  /** The byte vector the encoders append to. */
  class ByteVector {
    var bytes: Bytes

    constructor ()
      ensures bytes == []
    {
      bytes := [];
    }

    method PutU16(v: u16)
      modifies this
      ensures bytes == old(bytes) + LE(v, 2)
    {
      bytes := bytes + [v % 256] + [v / 256];
      assert LE(v / 256, 1) == [v / 256];
    }

    method PutU32(v: u32)
      modifies this
      ensures bytes == old(bytes) + LE(v, 4)
    {
      bytes := bytes + [v % 256] + [v / 0x100 % 256] + [v / 0x1_0000 % 256] + [v / 0x100_0000];
      var w := v / 256 / 256;
      assert LE(v, 4) == [v % 256, v / 256 % 256, w % 256, w / 256 % 256] + LE(w / 256 / 256, 0);
    }

    method PutI32(v: i32)
      modifies this
      ensures bytes == old(bytes) + LE(Unsigned(v), 4)
    {
      PutU32(Unsigned(v));
    }

    method Insert(bs: Bytes)
      modifies this
      ensures bytes == old(bytes) + bs
    {
      bytes := bytes + bs;
    }

    method PutSeqNum(sn: SeqNum)
      modifies this
      ensures bytes == old(bytes) + SnBytes(sn)
    {
      PutI32(sn.high);
      PutU32(sn.low);
    }

    method PutIds(reader: EntityId, writer: EntityId)
      modifies this
      ensures bytes == old(bytes) + (reader + writer)
    {
      Insert(reader);
      Insert(writer);
    }

    // The 4-byte submessage header, then the body.
    method PutSubmessage(id: octet, flags: octet, body: Bytes)
      modifies this
      ensures bytes == old(bytes) + Framed(id, flags, body)
    {
      Insert([id, flags]);
      PutU16(|body| % U16);
      Insert(body);
    }

    method EncodeHeader(h: Header)
      modifies this
      ensures bytes == old(bytes) + HeaderBytes(h)
    {
      Insert(MAGIC);
      Insert([h.major, h.minor, h.vendor.0, h.vendor.1]);
      Insert(h.prefix);
    }

    method EncodeData(ds: DataSubmessage)
      modifies this
      ensures bytes == old(bytes) + DataBytes(ds)
    {
      hide LE;
      var body := new ByteVector();
      body.PutU16(0);
      body.PutU16(16);
      body.Insert(ds.reader);
      body.Insert(ds.writer);
      body.PutSeqNum(ds.seqNum);
      body.Insert(ds.payload);
      PutSubmessage(ID_DATA, FLAG_ENDIANNESS + FLAG_DATA, body.bytes);
    }

    method EncodeHeartbeat(hb: Heartbeat)
      modifies this
      ensures bytes == old(bytes) + HeartbeatBytes(hb)
    {
      hide LE;
      var body := new ByteVector();
      body.PutIds(hb.reader, hb.writer);
      body.PutSeqNum(hb.first);
      body.PutSeqNum(hb.last);
      body.PutI32(hb.count);
      PutSubmessage(ID_HEARTBEAT, FLAG_ENDIANNESS, body.bytes);
    }

    method EncodeAckNack(an: AckNack)
      modifies this
      ensures bytes == old(bytes) + AckNackBytes(an)
    {
      hide LE;
      var body := new ByteVector();
      body.PutIds(an.reader, an.writer);
      body.PutSeqNum(an.base);
      body.PutU32(32);
      body.PutU32(an.bitmap);
      body.PutI32(an.count);
      PutSubmessage(ID_ACKNACK, FLAG_ENDIANNESS, body.bytes);
    }

    method EncodeGap(g: GapMessage)
      modifies this
      ensures bytes == old(bytes) + GapBytes(g)
    {
      hide LE;
      var body := new ByteVector();
      body.PutIds(g.reader, g.writer);
      body.PutSeqNum(g.start);
      body.PutSeqNum(SeqNum(g.end.high, (g.end.low + 1) % U32));
      body.PutU32(0);
      PutSubmessage(ID_GAP, FLAG_ENDIANNESS, body.bytes);
    }

    method EncodeFrag(f: DataFrag)
      modifies this
      ensures bytes == old(bytes) + FragBytes(f)
    {
      hide LE;
      var body := new ByteVector();
      body.PutU16(0);
      body.PutU16(0);
      body.Insert(f.reader);
      body.Insert(f.writer);
      body.PutSeqNum(f.seqNum);
      body.PutFragNumbers(f);
      body.Insert(f.payload);
      PutSubmessage(ID_DATA_FRAG, FLAG_ENDIANNESS, body.bytes);
    }

    method PutFragNumbers(f: DataFrag)
      modifies this
      ensures bytes == old(bytes) + FragNumbers(f)
    {
      hide LE;
      ghost var was := bytes;
      PutU32(f.start);
      PutU16(f.count);
      assert bytes == was + (LE(f.start, 4) + LE(f.count, 2));
      PutU16(f.fragSize);
      assert bytes == was + (LE(f.start, 4) + LE(f.count, 2) + LE(f.fragSize, 2));
      PutU32(f.dataSize);
    }
  }
}
