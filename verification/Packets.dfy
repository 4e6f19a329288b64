module Packets {
  // From a write to the dispatch on the other side: encapsulation, packets, the
  // walk over a received packet, reassembly (src/rtps/participant.cpp).

  import opened Octets
  import opened Rtps
  import opened Fragments
  import opened Wire
  import R = Reassembly

  // ---- CDR encapsulation ------------------------------------------------

  const SCHEME_CDR_LE: nat := 0x0001
  const SCHEME_PL_CDR_LE: nat := 0x0003

  function Wrap(payload: Bytes): Bytes { LE(SCHEME_CDR_LE, 2) + LE(0, 2) + payload }

  function Unwrap(b: Bytes): Option<Bytes> {
    if |b| < 4 then None
    else if U16At(b, 0) != SCHEME_CDR_LE && U16At(b, 0) != SCHEME_PL_CDR_LE then None
    else Some(b[4..])
  }

  lemma WrapRoundTrip(payload: Bytes)
    ensures Unwrap(Wrap(payload)) == Some(payload) && |Wrap(payload)| == 4 + |payload|
  {
    var b := Wrap(payload);
    assert Pow256(2) == U16;
    assert b[0..2] == LE(SCHEME_CDR_LE, 2);
    NumberAt(b, 0, SCHEME_CDR_LE, 2);
    assert b[4..] == payload;
  }

  // ---- Messages of one write --------------------------------------------

  // Protocol version 2.3, vendor "cp".
  function OurHeader(prefix: Prefix): Header { Header(2, 3, (0x63, 0x70), prefix) }

  function Packet(prefix: Prefix, submessages: Bytes): Bytes { HeaderBytes(OurHeader(prefix)) + submessages }

  // One packet per fragment.
  function FragPackets(prefix: Prefix, frags: seq<DataFrag>): (r: seq<Bytes>)
    ensures |r| == |frags|
    ensures forall i :: 0 <= i < |frags| ==> r[i] == Packet(prefix, FragBytes(frags[i]))
    decreases |frags|
  {
    if |frags| == 0 then []
    else FragPackets(prefix, frags[..|frags| - 1]) + [Packet(prefix, FragBytes(frags[|frags| - 1]))]
  }

  function SizeOr(requested: int): nat { if requested <= 0 then DEFAULT_SIZE else requested }

  function DataMessages(prefix: Prefix, writer: EntityId, sn: SeqNum, wrapped: Bytes, requested: int): seq<Bytes>
    requires |wrapped| > SizeOr(requested) ==> Narrowed(requested) > 0
  {
    if |wrapped| > SizeOr(requested) then FragPackets(prefix, Split(writer, sn, wrapped, Narrowed(requested)))
    else [Packet(prefix, DataBytes(DataSubmessage(UNKNOWN, writer, sn, wrapped)))]
  }

  method WrapInRtpsMessage(prefix: Prefix, submessages: Bytes) returns (msg: Bytes)
    ensures msg == Packet(prefix, submessages)
  {
    var out := new ByteVector();
    out.EncodeHeader(OurHeader(prefix));
    out.Insert(submessages);
    msg := out.bytes;
  }

  method EncodedFrag(f: DataFrag) returns (b: Bytes)
    ensures b == FragBytes(f)
  {
    var out := new ByteVector();
    out.EncodeFrag(f);
    b := out.bytes;
    assert [] + FragBytes(f) == FragBytes(f);
  }

  method EncodedData(ds: DataSubmessage) returns (b: Bytes)
    ensures b == DataBytes(ds)
  {
    var out := new ByteVector();
    out.EncodeData(ds);
    b := out.bytes;
    assert [] + DataBytes(ds) == DataBytes(ds);
  }

  method BuildDataMessages(prefix: Prefix, writer: EntityId, sn: SeqNum, wrapped: Bytes, requested: int)
    returns (msgs: seq<Bytes>)
    requires |wrapped| > SizeOr(requested) ==> Narrowed(requested) > 0
    ensures msgs == DataMessages(prefix, writer, sn, wrapped, requested)
  {
    var size := if requested <= 0 then DEFAULT_SIZE else requested;
    if |wrapped| > size {
      var frags := SplitIntoFragments(writer, sn, wrapped, requested);
      msgs := [];
      for i := 0 to |frags|
        invariant msgs == FragPackets(prefix, frags[..i])
      {
        var sub := EncodedFrag(frags[i]);
        var msg := WrapInRtpsMessage(prefix, sub);
        msgs := msgs + [msg];
        assert frags[..i + 1][..i] == frags[..i];
      }
      assert frags[..|frags|] == frags;
    } else {
      var sub := EncodedData(DataSubmessage(UNKNOWN, writer, sn, wrapped));
      var msg := WrapInRtpsMessage(prefix, sub);
      msgs := [msg];
    }
  }

  // ---- The walk over a received packet ----------------------------------

  // The submessages of a body: the walk stops at a header that is cut off or
  // whose declared length runs past the end.
  function Submessages(body: Bytes): seq<Bytes>
    decreases |body|
  {
    if |body| < 4 then []
    else
      var n := 4 + U16At(body, 2);
      if n > |body| then [] else [body[..n]] + Submessages(body[n..])
  }

  predicate WellFramed(s: Bytes) { |s| >= 4 && |s| == 4 + U16At(s, 2) }

  function Concat(ss: seq<Bytes>): Bytes {
    if |ss| == 0 then [] else ss[0] + Concat(ss[1..])
  }

  /** Submessages put one after the other are found again by the walk. */
  lemma {:induction false} WalkFindsAll(ss: seq<Bytes>)
    requires forall i :: 0 <= i < |ss| ==> WellFramed(ss[i])
    ensures Submessages(Concat(ss)) == ss
    decreases |ss|
  {
    if |ss| > 0 {
      var body, s := Concat(ss), ss[0];
      WalkFindsAll(ss[1..]);
      assert body[2..4] == s[2..4];
      assert body[..|s|] == s && body[|s|..] == Concat(ss[1..]);
    }
  }

  // ---- What one packet does ---------------------------------------------

  datatype Event =
    | Dispatch(source: Guid, sn: nat, payload: Bytes)
    | HeartbeatIn(source: Guid, first: nat, last: nat)
    | AckNackIn(writer: EntityId, base: nat, bitmap: nat)

  function Unwrapped(g: Guid, sn: SeqNum, wrapped: Bytes): seq<Event> {
    match Unwrap(wrapped) case None => [] case Some(raw) => [Dispatch(g, ToU64(sn), raw)]
  }

  // The fragments a submessage brings stay inside their buffers.
  predicate InBounds(s: Bytes) {
    match DecodeFrag(s) case None => true case Some(f) => Plausible(f) ==> Fits(f, 0)
  }

  predicate AllInBounds(ss: seq<Bytes>) { forall i :: 0 <= i < |ss| ==> InBounds(ss[i]) }

  function OnFrag(bs: Buffers, prefix: Prefix, f: DataFrag, now: int): (r: (Buffers, seq<Event>))
    requires BuffersOk(bs) && (Plausible(f) ==> Fits(f, 0))
    ensures BuffersOk(r.0)
  {
    var g := Guid(prefix, f.writer);
    var r := Receive(bs, g, f, now);
    (r.0, match r.1 case None => [] case Some(whole) => Unwrapped(g, f.seqNum, whole))
  }

  function Handle(bs: Buffers, prefix: Prefix, s: Bytes, now: int): (r: (Buffers, seq<Event>))
    requires BuffersOk(bs) && InBounds(s)
    ensures BuffersOk(r.0)
  {
    if |s| == 0 then (bs, [])
    else if s[0] == ID_DATA then
      (bs, match DecodeData(s)
           case None => []
           case Some(ds) => if |ds.payload| == 0 then [] else Unwrapped(Guid(prefix, ds.writer), ds.seqNum, ds.payload))
    else if s[0] == ID_HEARTBEAT then
      (bs, match DecodeHeartbeat(s)
           case None => []
           case Some(hb) => [HeartbeatIn(Guid(prefix, hb.writer), ToU64(hb.first), ToU64(hb.last))])
    else if s[0] == ID_ACKNACK then
      (bs, match DecodeAckNack(s)
           case None => []
           case Some(an) => [AckNackIn(an.writer, ToU64(an.base), an.bitmap)])
    else if s[0] == ID_DATA_FRAG then
      match DecodeFrag(s) case None => (bs, []) case Some(f) => OnFrag(bs, prefix, f, now)
    else (bs, [])
  }

  function HandleAll(bs: Buffers, prefix: Prefix, ss: seq<Bytes>, now: int): (r: (Buffers, seq<Event>))
    requires BuffersOk(bs) && AllInBounds(ss)
    ensures BuffersOk(r.0)
    decreases |ss|
  {
    if |ss| == 0 then (bs, [])
    else
      var a := Handle(bs, prefix, ss[0], now);
      var b := HandleAll(a.0, prefix, ss[1..], now);
      (b.0, a.1 + b.1)
  }

  // The submessages a participant looks at: none of a foreign protocol or its own.
  function Heard(self: Prefix, data: Bytes): seq<Bytes> {
    match DecodeHeader(data)
    case None => []
    case Some(h) => if h.prefix == self then [] else Submessages(data[20..])
  }

  function OnPacket(bs: Buffers, self: Prefix, data: Bytes, now: int): (r: (Buffers, seq<Event>))
    requires BuffersOk(bs) && AllInBounds(Heard(self, data))
    ensures BuffersOk(r.0)
  {
    if |data| < 20 then (bs, []) else HandleAll(bs, data[8..20], Heard(self, data), now)
  }

  // What the walk finds at `pos`.
  lemma NextSubmessage(body: Bytes, pos: nat)
    requires pos + 4 <= |body|
    ensures var n, ss := 4 + U16At(body, pos + 2), Submessages(body[pos..]);
      if pos + n > |body| then |ss| == 0
      else |ss| > 0 && ss[0] == body[pos..pos + n] && ss[1..] == Submessages(body[pos + n..])
  {
    var rest := body[pos..];
    assert rest[2..4] == body[pos + 2..pos + 4];
    var n := 4 + U16At(body, pos + 2);
    if pos + n <= |body| { assert rest[..n] == body[pos..pos + n] && rest[n..] == body[pos + n..]; }
  }

  // What is still to be done, when `rest` is left of a packet.
  ghost predicate Remains(total: (Buffers, seq<Event>), told: seq<Event>, bs: Buffers, events: seq<Event>,
                          prefix: Prefix, rest: seq<Bytes>, now: int)
    requires BuffersOk(bs) && AllInBounds(rest)
  {
    var r := HandleAll(bs, prefix, rest, now);
    total.0 == r.0 && told + total.1 == events + r.1
  }

  lemma RemainsLess(total: (Buffers, seq<Event>), told: seq<Event>, bs: Buffers, events: seq<Event>,
                    prefix: Prefix, rest: seq<Bytes>, now: int)
    requires BuffersOk(bs) && AllInBounds(rest) && |rest| > 0 && Remains(total, told, bs, events, prefix, rest, now)
    ensures InBounds(rest[0]) && AllInBounds(rest[1..])
    ensures var a := Handle(bs, prefix, rest[0], now);
      Remains(total, told, a.0, events + a.1, prefix, rest[1..], now)
  {
    hide Handle;
  }

  class Participant {
    const prefix: Prefix
    const assembler: FragmentAssembler
    var events: seq<Event>    // what readers and writers are told, in order

    constructor (prefix: Prefix)
      ensures this.prefix == prefix && events == []
      ensures fresh(assembler) && assembler.Valid() && assembler.buffers == map[]
    {
      this.prefix := prefix;
      assembler := new FragmentAssembler();
      events := [];
    }

    method HandleDataPacket(data: Bytes, now: int)
      requires assembler.Valid() && AllInBounds(Heard(prefix, data))
      modifies this, assembler
      ensures assembler.Valid()
      ensures var r := OnPacket(old(assembler.buffers), prefix, data, now);
        assembler.buffers == r.0 && events == old(events) + r.1
    {
      var hdr := DecodeHeader(data);
      if hdr == None { return; }
      if hdr.value.prefix == prefix { return; }
      Walk(hdr.value.prefix, data[20..], now);
    }

    method Walk(source: Prefix, body: Bytes, now: int)
      requires assembler.Valid() && AllInBounds(Submessages(body))
      modifies this, assembler
      ensures assembler.Valid()
      ensures var r := HandleAll(old(assembler.buffers), source, Submessages(body), now);
        assembler.buffers == r.0 && events == old(events) + r.1
    {
      ghost var total := HandleAll(assembler.buffers, source, Submessages(body), now);
      WalkOn(source, body, now, total, events, Submessages(body));
    }

    method NextLength(body: Bytes, pos: nat, ghost rest: seq<Bytes>) returns (n: nat)
      requires pos + 4 <= |body| && rest == Submessages(body[pos..])
      ensures n >= 4
      ensures if pos + n > |body| then |rest| == 0
              else |rest| > 0 && rest[0] == body[pos..pos + n] && rest[1..] == Submessages(body[pos + n..])
    {
      n := 4 + U16At(body, pos + 2);
      NextSubmessage(body, pos);
    }

    method WalkOn(source: Prefix, body: Bytes, now: int,
                  ghost total: (Buffers, seq<Event>), ghost told: seq<Event>, ghost ss: seq<Bytes>)
      requires ss == Submessages(body) && assembler.Valid() && AllInBounds(ss)
      requires Remains(total, told, assembler.buffers, events, source, ss, now)
      modifies this, assembler
      ensures assembler.Valid() && total.0 == assembler.buffers && told + total.1 == events
    {
      hide Handle;
      var pos := 0;
      ghost var rest := ss;
      assert body[pos..] == body;
      while pos + 4 <= |body|
        invariant pos <= |body| && rest == Submessages(body[pos..])
        invariant assembler.Valid() && AllInBounds(rest)
        invariant Remains(total, told, assembler.buffers, events, source, rest, now)
        decreases |body| - pos
      {
        var n := NextLength(body, pos, rest);
        if pos + n > |body| { break; }
        HandleNext(source, body[pos..pos + n], now, total, told, rest);
        pos := pos + n;
        rest := rest[1..];
      }
      assert |rest| == 0;
    }

    method HandleNext(source: Prefix, s: Bytes, now: int, ghost total: (Buffers, seq<Event>), ghost told: seq<Event>,
                      ghost rest: seq<Bytes>)
      requires assembler.Valid() && |rest| > 0 && s == rest[0] && AllInBounds(rest)
      requires Remains(total, told, assembler.buffers, events, source, rest, now)
      modifies this, assembler
      ensures assembler.Valid() && AllInBounds(rest[1..])
      ensures Remains(total, told, assembler.buffers, events, source, rest[1..], now)
    {
      RemainsLess(total, told, assembler.buffers, events, source, rest, now);
      HandleSubmessage(source, s, now);
    }

    method HandleSubmessage(source: Prefix, s: Bytes, now: int)
      requires assembler.Valid() && InBounds(s)
      modifies this, assembler
      ensures assembler.Valid()
      ensures var r := Handle(old(assembler.buffers), source, s, now);
        assembler.buffers == r.0 && events == old(events) + r.1
    {
      if |s| == 0 { return; }
      if s[0] == ID_DATA {
        var ds := DecodeData(s);
        if ds.Some? && |ds.value.payload| > 0 {
          Deliver(Guid(source, ds.value.writer), ds.value.seqNum, ds.value.payload);
        }
      } else if s[0] == ID_HEARTBEAT {
        var hb := DecodeHeartbeat(s);
        if hb.Some? {
          events := events + [HeartbeatIn(Guid(source, hb.value.writer), ToU64(hb.value.first), ToU64(hb.value.last))];
        }
      } else if s[0] == ID_ACKNACK {
        var an := DecodeAckNack(s);
        if an.Some? {
          events := events + [AckNackIn(an.value.writer, ToU64(an.value.base), an.value.bitmap)];
        }
      } else if s[0] == ID_DATA_FRAG {
        var df := DecodeFrag(s);
        if df.Some? {
          var g := Guid(source, df.value.writer);
          var whole := assembler.ReceiveFragment(g, df.value, now);
          if whole.Some? { Deliver(g, df.value.seqNum, whole.value); }
        }
      }
    }

    method Deliver(g: Guid, sn: SeqNum, wrapped: Bytes)
      modifies this`events
      ensures events == old(events) + Unwrapped(g, sn, wrapped)
    {
      var raw := Unwrap(wrapped);
      if raw.Some? { events := events + [Dispatch(g, ToU64(sn), raw.value)]; }
    }
  }

  // ---- One packet -------------------------------------------------------

  lemma FramedIsWell(id: octet, flags: octet, body: Bytes)
    requires |body| < U16
    ensures WellFramed(Framed(id, flags, body))
  {
    FramedHasBody(id, flags, body);
  }

  /** Submessages put together in one packet are heard one by one by everyone
      but their sender. */
  lemma {:induction false} PacketIsHeard(self: Prefix, prefix: Prefix, ss: seq<Bytes>)
    requires forall i :: 0 <= i < |ss| ==> WellFramed(ss[i])
    ensures Heard(self, Packet(prefix, Concat(ss))) == if prefix == self then [] else ss
  {
    HeaderRoundTrip(OurHeader(prefix), Concat(ss));
    assert Packet(prefix, Concat(ss))[20..] == Concat(ss);
    WalkFindsAll(ss);
  }

  lemma {:induction false} OneHeard(bs: Buffers, self: Prefix, prefix: Prefix, s: Bytes, now: int)
    requires BuffersOk(bs) && WellFramed(s) && InBounds(s) && prefix != self
    ensures AllInBounds(Heard(self, Packet(prefix, s)))
    ensures OnPacket(bs, self, Packet(prefix, s), now) == Handle(bs, prefix, s, now)
  {
    var ss, data := [s], Packet(prefix, s);
    assert ss[1..] == [] && Concat(ss) == s;
    PacketIsHeard(self, prefix, ss);
    assert data[8..20] == prefix;
    OnlyOne(bs, prefix, ss, now);
  }

  lemma OnlyOne(bs: Buffers, prefix: Prefix, ss: seq<Bytes>, now: int)
    requires BuffersOk(bs) && AllInBounds(ss) && |ss| == 1
    ensures InBounds(ss[0]) && HandleAll(bs, prefix, ss, now) == Handle(bs, prefix, ss[0], now)
  {
    var a := Handle(bs, prefix, ss[0], now);
    assert HandleAll(a.0, prefix, ss[1..], now) == (a.0, []);
    assert a.1 + [] == a.1;
  }

  /** A HEARTBEAT and an ACKNACK tell the other side the numbers they were
      built from. */
  lemma HeartbeatArrives(bs: Buffers, self: Prefix, g: Guid, first: nat, last: nat, count: i32, now: int)
    requires BuffersOk(bs) && g.prefix != self && first < U64 && last < U64
    ensures var hb := Heartbeat(UNKNOWN, g.entity, FromU64(first), FromU64(last), count);
      var data := Packet(g.prefix, HeartbeatBytes(hb));
      AllInBounds(Heard(self, data)) && OnPacket(bs, self, data, now) == (bs, [HeartbeatIn(g, first, last)])
  {
    var hb := Heartbeat(UNKNOWN, g.entity, FromU64(first), FromU64(last), count);
    HeartbeatRoundTrip(hb);
    FramedIsWell(ID_HEARTBEAT, FLAG_ENDIANNESS, HeartbeatBody(hb));
    SeqNumRoundTrip(hb.first, first);
    SeqNumRoundTrip(hb.last, last);
    OneHeard(bs, self, g.prefix, HeartbeatBytes(hb), now);
  }

  lemma AckNackArrives(
    bs: Buffers, self: Prefix, prefix: Prefix, reader: EntityId, writer: EntityId, base: nat, bitmap: u32,
    count: i32, now: int)
    requires BuffersOk(bs) && prefix != self && base < U64
    ensures var data := Packet(prefix, AckNackBytes(AckNack(reader, writer, FromU64(base), bitmap, count)));
      AllInBounds(Heard(self, data)) && OnPacket(bs, self, data, now) == (bs, [AckNackIn(writer, base, bitmap)])
  {
    var an := AckNack(reader, writer, FromU64(base), bitmap, count);
    AckNackRoundTrip(an);
    FramedIsWell(ID_ACKNACK, FLAG_ENDIANNESS, AckNackBody(an));
    SeqNumRoundTrip(an.base, base);
    OneHeard(bs, self, prefix, AckNackBytes(an), now);
  }

  // A GAP is heard and has no effect.
  lemma GapIsIgnored(bs: Buffers, self: Prefix, g: Guid, start: SeqNum, end: SeqNum, now: int)
    requires BuffersOk(bs) && g.prefix != self
    ensures var data := Packet(g.prefix, GapBytes(GapMessage(UNKNOWN, g.entity, start, end)));
      AllInBounds(Heard(self, data)) && OnPacket(bs, self, data, now) == (bs, [])
  {
    var gap := GapMessage(UNKNOWN, g.entity, start, end);
    FramedIsWell(ID_GAP, FLAG_ENDIANNESS, GapBody(gap));
    FramedWhole(ID_GAP, FLAG_ENDIANNESS, GapBody(gap));
    OneHeard(bs, self, g.prefix, GapBytes(gap), now);
  }

  /** A sample that needs no fragments: one packet, and every arrival of it
      dispatches the payload under its number. */
  lemma WholeSampleArrives(bs: Buffers, self: Prefix, g: Guid, sn: nat, payload: Bytes, requested: int, now: int)
    requires BuffersOk(bs) && g.prefix != self && sn < U64
    requires 4 + |payload| <= SizeOr(requested) && 24 + |payload| < U16
    ensures |Wrap(payload)| == 4 + |payload|
    ensures var msgs := DataMessages(g.prefix, g.entity, FromU64(sn), Wrap(payload), requested);
      && |msgs| == 1 && AllInBounds(Heard(self, msgs[0]))
      && OnPacket(bs, self, msgs[0], now) == (bs, [Dispatch(g, sn, payload)])
  {
    WrapRoundTrip(payload);
    var ds := DataSubmessage(UNKNOWN, g.entity, FromU64(sn), Wrap(payload));
    DataRoundTrip(ds);
    FramedIsWell(ID_DATA, FLAG_ENDIANNESS + FLAG_DATA, DataHead(ds) + ds.payload);
    SeqNumRoundTrip(ds.seqNum, sn);
    OneHeard(bs, self, g.prefix, DataBytes(ds), now);
  }

  lemma FragmentIsHeard(bs: Buffers, self: Prefix, prefix: Prefix, f: DataFrag, now: int)
    requires BuffersOk(bs) && prefix != self && 32 + |f.payload| < U16 && (Plausible(f) ==> Fits(f, 0))
    ensures var data := Packet(prefix, FragBytes(f));
      AllInBounds(Heard(self, data)) && OnPacket(bs, self, data, now) == OnFrag(bs, prefix, f, now)
  {
    FragRoundTrip(f);
    FramedIsWell(ID_DATA_FRAG, FLAG_ENDIANNESS, FragHead(f) + f.payload);
    OneHeard(bs, self, prefix, FragBytes(f), now);
  }

  // ---- A whole write over the network -----------------------------------

  /** A packet's arrival: packet i of the write, or any other packet at all. */
  datatype Arrival = Mine(i: nat, now: int) | Other(data: Bytes, now: int)

  // A submessage that brings no fragment of the sample `key`.
  predicate Unrelated(key: Key, prefix: Prefix, s: Bytes) {
    match DecodeFrag(s)
    case None => true
    case Some(f) => KeyOf(Guid(prefix, f.writer), f) != key
  }

  predicate ArrivalOk(self: Prefix, key: Key, n: nat, a: Arrival) {
    match a
    case Mine(i, _) => i < n
    case Other(data, _) =>
      && AllInBounds(Heard(self, data))
      && (|data| >= 20 ==>
           forall k :: 0 <= k < |Heard(self, data)| ==> Unrelated(key, data[8..20], Heard(self, data)[k]))
  }

  // Nothing arrives later than STALE_AGE after one of the write's packets.
  predicate ArrivesInTime(start: int, a: Arrival) {
    a.now - start <= STALE_AGE && (a.Mine? ==> a.now >= start)
  }

  function Arrived(arrivals: seq<Arrival>): set<nat> {
    if |arrivals| == 0 then {}
    else (if arrivals[0].Mine? then {arrivals[0].i} else {}) + Arrived(arrivals[1..])
  }

  predicate Fresh(start: int, fs: nat, s: R.Progress) { s.Held? ==> s.fs == fs && s.created >= start }

  lemma OtherSubmessage(bs: Buffers, key: Key, p: Bytes, s: R.Progress, prefix: Prefix, sub: Bytes, now: int)
    requires BuffersOk(bs) && R.Tracks(bs, key, p, s) && InBounds(sub) && Unrelated(key, prefix, sub)
    requires R.Aged(s, now) == s
    ensures R.Tracks(Handle(bs, prefix, sub, now).0, key, p, s)
  {
    match DecodeFrag(sub)
    case None =>
    case Some(f) => R.ForeignArrives(bs, key, p, s, Guid(prefix, f.writer), f, now);
  }

  lemma {:induction false} OtherSubmessages(
    bs: Buffers, key: Key, p: Bytes, s: R.Progress, prefix: Prefix, ss: seq<Bytes>, now: int)
    requires BuffersOk(bs) && R.Tracks(bs, key, p, s) && AllInBounds(ss)
    requires forall k :: 0 <= k < |ss| ==> Unrelated(key, prefix, ss[k])
    requires R.Aged(s, now) == s
    ensures R.Tracks(HandleAll(bs, prefix, ss, now).0, key, p, s)
    decreases |ss|
  {
    hide Handle;
    if |ss| > 0 {
      assert InBounds(ss[0]) && Unrelated(key, prefix, ss[0]);
      OtherSubmessage(bs, key, p, s, prefix, ss[0], now);
      OtherSubmessages(Handle(bs, prefix, ss[0], now).0, key, p, s, prefix, ss[1..], now);
    }
  }

  // Packet i of a fragmented write reaches the assembler as fragment i.
  lemma {:induction false} MineArrives(
    bs: Buffers, self: Prefix, g: Guid, sn: SeqNum, p: Bytes, fs: u16, s: R.Progress, i: nat, now: int)
    requires BuffersOk(bs) && R.IsSample(p) && 0 < fs && 32 + fs < U16 && i < Total(|p|, fs)
    requires R.Tracks(bs, Key(g, ToU64(sn)), p, s) && g.prefix != self
    ensures var data, t := Packet(g.prefix, FragBytes(FragAt(g.entity, sn, p, fs, i))), R.Took(|p|, s, fs, i, now);
      && AllInBounds(Heard(self, data))
      && var r := OnPacket(bs, self, data, now);
      R.Tracks(r.0, Key(g, ToU64(sn)), p, t.0) && r.1 == if t.1 then Unwrapped(g, sn, p) else []
  {
    hide Receive, R.Took, R.Tracks, FragBytes, Packet, Heard, OnPacket;
    var f := FragAt(g.entity, sn, p, fs, i);
    R.OwnFragment(g.entity, sn, p, fs, i, 0);
    R.OwnLands(g.entity, sn, p, fs, {}, now, i);
    R.OwnArrives(bs, g, sn, p, s, fs, i, now);
    FragmentIsHeard(bs, self, g.prefix, f, now);
  }

  function DataOf(msgs: seq<Bytes>, a: Arrival): Bytes
    requires a.Mine? ==> a.i < |msgs|
  {
    match a case Mine(i, _) => msgs[i] case Other(data, _) => data
  }

  predicate Readable(self: Prefix, msgs: seq<Bytes>, a: Arrival) {
    (a.Mine? ==> a.i < |msgs|) && AllInBounds(Heard(self, DataOf(msgs, a)))
  }

  predicate AllReadable(self: Prefix, msgs: seq<Bytes>, arrivals: seq<Arrival>) {
    forall k :: 0 <= k < |arrivals| ==> Readable(self, msgs, arrivals[k])
  }

  // What arrival k makes the participant report.
  function Told(bs: Buffers, self: Prefix, msgs: seq<Bytes>, arrivals: seq<Arrival>, k: nat): seq<Event>
    requires BuffersOk(bs) && AllReadable(self, msgs, arrivals) && k < |arrivals|
    decreases k
  {
    var r := OnPacket(bs, self, DataOf(msgs, arrivals[0]), arrivals[0].now);
    if k == 0 then r.1 else Told(r.0, self, msgs, arrivals[1..], k - 1)
  }

  /** What is fixed over a run: a fragmented write and who listens. */
  predicate Fragmented(self: Prefix, g: Guid, p: Bytes, fs: u16) {
    R.IsSample(p) && 0 < fs && 32 + fs < U16 && g.prefix != self
  }

  predicate RunOk(self: Prefix, g: Guid, sn: SeqNum, p: Bytes, fs: u16, start: int, arrivals: seq<Arrival>)
    requires fs > 0
  {
    forall k :: 0 <= k < |arrivals| ==>
      ArrivalOk(self, Key(g, ToU64(sn)), Total(|p|, fs), arrivals[k]) && ArrivesInTime(start, arrivals[k])
  }

  function Messages(g: Guid, sn: SeqNum, p: Bytes, fs: u16): (r: seq<Bytes>)
    requires fs > 0
    ensures |r| == Total(|p|, fs)
    ensures forall i :: 0 <= i < |r| ==> r[i] == Packet(g.prefix, FragBytes(FragAt(g.entity, sn, p, fs, i)))
  {
    SplitLength(g.entity, sn, p, fs, 0, 0, 1);
    var frags := Split(g.entity, sn, p, fs);
    assert forall i :: 0 <= i < |frags| ==> frags[i] == FragAt(g.entity, sn, p, fs, i) by {
      forall i | 0 <= i < |frags| ensures frags[i] == FragAt(g.entity, sn, p, fs, i) {
        SplitIsGrid(g.entity, sn, p, fs, 0, 0, i);
      }
    }
    FragPackets(g.prefix, frags)
  }

  // One arrival, whatever it is, moves the standing of the sample.
  lemma {:induction false} OneArrival(
    bs: Buffers, self: Prefix, g: Guid, sn: SeqNum, p: Bytes, fs: u16, s: R.Progress, a: Arrival, start: int)
    requires BuffersOk(bs) && Fragmented(self, g, p, fs) && R.Tracks(bs, Key(g, ToU64(sn)), p, s) && Fresh(start, fs, s)
    requires ArrivalOk(self, Key(g, ToU64(sn)), Total(|p|, fs), a) && ArrivesInTime(start, a)
    ensures Readable(self, Messages(g, sn, p, fs), a)
    ensures var r := OnPacket(bs, self, DataOf(Messages(g, sn, p, fs), a), a.now);
      var t := Next(p, s, fs, a);
      && R.Tracks(r.0, Key(g, ToU64(sn)), p, t.0)
      && (a.Mine? ==> r.1 == if t.1 then Unwrapped(g, sn, p) else [])
  {
    hide Handle, Receive, R.Took;
    match a
    case Mine(i, now) => MineArrives(bs, self, g, sn, p, fs, s, i, now);
    case Other(data, now) =>
      if |data| >= 20 {
        OtherSubmessages(bs, Key(g, ToU64(sn)), p, s, data[8..20], Heard(self, data), now);
      }
  }

  lemma {:induction false} RunIsReadable(
    bs: Buffers, self: Prefix, g: Guid, sn: SeqNum, p: Bytes, fs: u16, start: int, arrivals: seq<Arrival>)
    requires Fragmented(self, g, p, fs) && RunOk(self, g, sn, p, fs, start, arrivals)
    ensures AllReadable(self, Messages(g, sn, p, fs), arrivals)
  {
    forall k | 0 <= k < |arrivals| ensures Readable(self, Messages(g, sn, p, fs), arrivals[k]) {
      if arrivals[k].Mine? {
        assert R.Tracks(map[], Key(g, ToU64(sn)), p, R.Idle);
        OneArrival(map[], self, g, sn, p, fs, R.Idle, arrivals[k], start);
      }
    }
  }

  // What one arrival does to the set of indices, while one is still missing.
  lemma StandingGrows(p: Bytes, fs: u16, s: R.Progress, a: Arrival, start: int)
    requires fs > 0 && Fresh(start, fs, s) && ArrivesInTime(start, a) && a.Mine?
    ensures var t := R.Took(|p|, s, fs, a.i, a.now);
      && (t.1 <==> R.Complete(|p|, fs, R.Gathered(s) + {a.i}))
      && (!t.1 ==> Fresh(start, fs, t.0) && R.Gathered(t.0) == R.Gathered(s) + {a.i})
  {
    assert R.Aged(s, a.now) == s;
  }

  // Where the first arrival leaves the sample.
  function Next(p: Bytes, s: R.Progress, fs: u16, a: Arrival): (R.Progress, bool)
    requires fs > 0
  {
    if a.Mine? then R.Took(|p|, s, fs, a.i, a.now) else (s, false)
  }

  // The indices gathered by one arrival and those still to come add up.
  lemma SameIndices(p: Bytes, fs: u16, s: R.Progress, arrivals: seq<Arrival>, start: int, k: nat)
    requires fs > 0 && Fresh(start, fs, s) && 0 < k < |arrivals| && ArrivesInTime(start, arrivals[0])
    requires !R.Complete(|p|, fs, R.Gathered(s) + Arrived(arrivals[..k]))
    ensures var t := Next(p, s, fs, arrivals[0]);
      && !t.1 && Fresh(start, fs, t.0)
      && R.Gathered(t.0) + Arrived(arrivals[1..][..k - 1]) == R.Gathered(s) + Arrived(arrivals[..k])
  {
    var a := arrivals[0];
    var own := if a.Mine? then {a.i} else {};
    assert arrivals[..k][1..] == arrivals[1..][..k - 1];
    assert R.Gathered(s) + Arrived(arrivals[..k]) == (R.Gathered(s) + own) + Arrived(arrivals[1..][..k - 1]);
    if a.Mine? { StandingGrows(p, fs, s, a, start); }
  }

  lemma {:induction false} RunReassembles(
    bs: Buffers, self: Prefix, g: Guid, sn: SeqNum, p: Bytes, fs: u16, s: R.Progress,
    arrivals: seq<Arrival>, start: int, k: nat)
    requires BuffersOk(bs) && Fragmented(self, g, p, fs) && R.Tracks(bs, Key(g, ToU64(sn)), p, s) && Fresh(start, fs, s)
    requires RunOk(self, g, sn, p, fs, start, arrivals) && AllReadable(self, Messages(g, sn, p, fs), arrivals)
    requires k < |arrivals| && arrivals[k].Mine?
    requires !R.Complete(|p|, fs, R.Gathered(s) + Arrived(arrivals[..k]))
    ensures Told(bs, self, Messages(g, sn, p, fs), arrivals, k) ==
            if R.Complete(|p|, fs, R.Gathered(s) + Arrived(arrivals[..k]) + {arrivals[k].i})
            then Unwrapped(g, sn, p) else []
    decreases k
  {
    hide OnPacket, R.Took, R.Complete, R.Tracks, Messages, DataOf, ArrivalOk, Unwrapped, R.IsSample, Fresh;
    var a, rest := arrivals[0], arrivals[1..];
    OneArrival(bs, self, g, sn, p, fs, s, a, start);
    if k == 0 {
      StandingGrows(p, fs, s, a, start);
      assert R.Gathered(s) + Arrived(arrivals[..k]) + {a.i} == R.Gathered(s) + {a.i};
    } else {
      SameIndices(p, fs, s, arrivals, start, k);
      RunReassembles(OnPacket(bs, self, DataOf(Messages(g, sn, p, fs), a), a.now).0, self, g, sn, p, fs,
                     Next(p, s, fs, a).0, rest, start, k - 1);
    }
  }

  /** A fragmented write over a network that loses, repeats and reorders its
      packets and mixes them with any others: nothing is dispatched until the
      last missing fragment arrives, and then exactly the payload written, under
      its writer and number. */
  lemma {:induction false} WireIdentity(bs: Buffers, self: Prefix, g: Guid, sn: nat, payload: Bytes, requested: int,
                     arrivals: seq<Arrival>, start: int, k: nat)
    requires BuffersOk(bs) && sn < U64 && Key(g, sn) !in bs && g.prefix != self
    requires 0 < Narrowed(requested) && 32 + Narrowed(requested) < U16
    requires SizeOr(requested) < 4 + |payload| <= MAX_REASSEMBLY
    requires RunOk(self, g, FromU64(sn), Wrap(payload), Narrowed(requested), start, arrivals)
    requires k < |arrivals| && arrivals[k].Mine?
    requires !R.Complete(4 + |payload|, Narrowed(requested), Arrived(arrivals[..k]))
    ensures |Wrap(payload)| == 4 + |payload|
    ensures var msgs := DataMessages(g.prefix, g.entity, FromU64(sn), Wrap(payload), requested);
      AllReadable(self, msgs, arrivals) &&
      Told(bs, self, msgs, arrivals, k) ==
      if R.Complete(4 + |payload|, Narrowed(requested), Arrived(arrivals[..k]) + {arrivals[k].i})
      then [Dispatch(g, sn, payload)] else []
  {
    var p, fs := Wrap(payload), Narrowed(requested);
    WrapRoundTrip(payload);
    SeqNumRoundTrip(FromU64(sn), sn);
    RunIsReadable(bs, self, g, FromU64(sn), p, fs, start, arrivals);
    var before := Arrived(arrivals[..k]);
    var after := before + {arrivals[k].i};
    assert R.Gathered(R.Idle) + before == before && R.Gathered(R.Idle) + before + {arrivals[k].i} == after;
    RunReassembles(bs, self, g, FromU64(sn), p, fs, R.Idle, arrivals, start, k);
  }
}
