module Refinement {
  // The protocol steps are what the packets do: sending a message of the
  // protocol is sending these bytes, and their arrival at a participant has the
  // effect of the step (src/rtps/participant.cpp).

  import opened Octets
  import opened History
  import opened Delivery
  import opened Rtps
  import T = RecvTracking
  import F = Fragments
  import R = Reassembly
  import P = Packets
  import W = Wire

  // ---- Messages as packets ----------------------------------------------

  /** The packet of one message from the writer g; `count` is what a HEARTBEAT
      carries along. */
  function PacketOf(g: Guid, m: Msg, count: i32): Bytes
    requires Sendable(m)
  {
    match m
    case Data(c) =>
      P.Packet(g.prefix, W.DataBytes(W.DataSubmessage(UNKNOWN, g.entity, FromU64(c.sn), P.Wrap(c.payload))))
    case Frag(c, size, i) =>
      P.WrapRoundTrip(c.payload);
      P.Packet(g.prefix, W.FragBytes(F.FragAt(g.entity, FromU64(c.sn), P.Wrap(c.payload), size, i)))
    case Heartbeat(first, last) =>
      P.Packet(g.prefix, W.HeartbeatBytes(W.Heartbeat(UNKNOWN, g.entity, FromU64(first), FromU64(last), count)))
    case Gap(start, end) =>
      P.Packet(g.prefix, W.GapBytes(W.GapMessage(UNKNOWN, g.entity, FromU64(start), FromU64(end))))
  }

  // What the wire format has room for.
  predicate Sendable(m: Msg) {
    match m
    case Data(c) => c.sn < U64 && Wrapped(c) < 0xFFE0
    case Frag(c, size, i) =>
      c.sn < U64 && 0 < size && 32 + size < U16 && i < Pieces(c, size) && Wrapped(c) < U32
    case Heartbeat(first, last) => first < U64 && last < U64
    case Gap(start, end) => start < U64 && end < U64
    case AckNack(_, _) => false
  }

  // The packets a write or a retransmission sends are those of its messages.
  lemma {:induction false} SentAsPackets(g: Guid, c: Change, size: nat, i: nat, count: i32)
    requires c.sn < U64 && 0 < size && 32 + size < U16 && Wrapped(c) < U32
    ensures |P.Wrap(c.payload)| == Wrapped(c) && F.Narrowed(size) == size
    ensures var ms := Messages(c, size);
      var packets := P.DataMessages(g.prefix, g.entity, FromU64(c.sn), P.Wrap(c.payload), size);
      && |packets| == |ms|
      && (i < |ms| ==> Sendable(ms[i]) && packets[i] == PacketOf(g, ms[i], count))
  {
    hide P.Wrap, P.Packet, W.FragBytes, W.DataBytes, F.Total, F.Split, F.FragAt;
    P.WrapRoundTrip(c.payload);
    if Wrapped(c) > size {
      SplitAsFragments(g, c, size, i);
      var frags := F.Split(g.entity, FromU64(c.sn), P.Wrap(c.payload), size);
      var packets := P.DataMessages(g.prefix, g.entity, FromU64(c.sn), P.Wrap(c.payload), size);
      assert packets == P.FragPackets(g.prefix, frags);
    }
  }

  lemma {:induction false} SplitAsFragments(g: Guid, c: Change, size: u16, i: nat)
    requires c.sn < U64 && 0 < size && |P.Wrap(c.payload)| == Wrapped(c)
    ensures var frags := F.Split(g.entity, FromU64(c.sn), P.Wrap(c.payload), size);
      && |frags| == Pieces(c, size)
      && (i < |frags| ==> frags[i] == F.FragAt(g.entity, FromU64(c.sn), P.Wrap(c.payload), size, i))
  {
    hide P.Wrap, F.FragAt;
    F.SplitLength(g.entity, FromU64(c.sn), P.Wrap(c.payload), size, 0, 0, 1);
    if i < Pieces(c, size) { F.SplitIsGrid(g.entity, FromU64(c.sn), P.Wrap(c.payload), size, 0, 0, i); }
  }

  // ---- The receiving side -----------------------------------------------

  /** The assembler's buffers hold, for each of the writer's samples, what the
      protocol says of its reassembly, and nothing else of that writer. */
  ghost predicate Holds(bs: F.Buffers, g: Guid, s: System) {
    && F.BuffersOk(bs)
    && (forall sn :: 1 <= sn <= |s.written| ==> SampleHeld(bs, g, s, sn))
    && forall k :: k in bs && k.writer == g ==> 1 <= k.seqNo <= |s.written|
  }

  ghost predicate SampleHeld(bs: F.Buffers, g: Guid, s: System, sn: nat)
    requires 1 <= sn <= |s.written|
  {
    R.Tracks(bs, F.Key(g, sn), P.Wrap(s.written[sn - 1]), Standing(s.r.parts, sn))
  }

  // What a reader of the writer g makes of what its participant reports.
  function Told(r: ReaderState, g: Guid, e: P.Event): ReaderState {
    match e
    case Dispatch(source, sn, payload) => if source == g then AfterData(r, Change(sn, payload)).0 else r
    case HeartbeatIn(source, first, last) => if source == g then AfterHeartbeat(r, first, last).0 else r
    case _ => r
  }

  function ToldAll(r: ReaderState, g: Guid, events: seq<P.Event>): ReaderState
    decreases |events|
  {
    if |events| == 0 then r else ToldAll(Told(r, g, events[0]), g, events[1..])
  }

  /** The packet has the effect of the step: its events take the reader where
      the step takes it, and the buffers follow. */
  ghost predicate Realised(g: Guid, self: Prefix, bs: F.Buffers, s: System, t: System, data: Bytes)
    requires F.BuffersOk(bs)
  {
    && P.AllInBounds(P.Heard(self, data))
    && var r := P.OnPacket(bs, self, data, s.clock);
    && Holds(r.0, g, t) && ToldAll(s.r, g, r.1) == t.r.(parts := s.r.parts)
  }

  lemma ToldNothing(r: ReaderState, g: Guid)
    ensures ToldAll(r, g, []) == r
  {}

  lemma ToldOne(r: ReaderState, g: Guid, e: P.Event)
    ensures ToldAll(r, g, [e]) == Told(r, g, e)
  {
    hide Told;
    assert |[e][1..]| == 0;
  }

  // Whatever leaves buffers, writes and reassemblies alone keeps them matched.
  lemma {:induction false} StillHolds(bs: F.Buffers, g: Guid, s: System, t: System)
    requires Holds(bs, g, s) && t.written == s.written && t.r.parts == s.r.parts
    ensures Holds(bs, g, t)
  {
    hide R.Tracks;
    forall sn | 1 <= sn <= |t.written| ensures SampleHeld(bs, g, t, sn) { assert SampleHeld(bs, g, s, sn); }
  }

  // A sample in one piece.
  lemma {:induction false} DataIsRealised(g: Guid, self: Prefix, bs: F.Buffers, s: System, c: Change, count: i32)
    requires Holds(bs, g, s) && g.prefix != self && Sendable(Data(c))
    ensures Realised(g, self, bs, s, Arrived(s, Data(c)), PacketOf(g, Data(c), count))
  {
    assert F.BuffersOk(bs);
    hide Holds, P.Heard, P.OnPacket, P.Packet, P.Wrap, W.DataBytes, T.AfterRecord, T.RequestFor;
    P.WholeSampleArrives(bs, self, g, c.sn, c.payload, 0xFFE0, s.clock);
    SingleData(g, c);
    ToldOne(s.r, g, P.Dispatch(g, c.sn, c.payload));
    StillHolds(bs, g, s, Arrived(s, Data(c)));
  }

  lemma SingleData(g: Guid, c: Change)
    requires Sendable(Data(c))
    ensures |P.Wrap(c.payload)| == Wrapped(c)
    ensures var packets := P.DataMessages(g.prefix, g.entity, FromU64(c.sn), P.Wrap(c.payload), 0xFFE0);
      packets == [PacketOf(g, Data(c), 0)]
  {
    hide P.Wrap, P.Packet, W.DataBytes;
    P.WrapRoundTrip(c.payload);
  }

  lemma {:induction false} HeartbeatIsRealised(
    g: Guid, self: Prefix, bs: F.Buffers, s: System, first: nat, last: nat, count: i32)
    requires Holds(bs, g, s) && g.prefix != self && Sendable(Heartbeat(first, last))
    ensures Realised(g, self, bs, s, Arrived(s, Heartbeat(first, last)), PacketOf(g, Heartbeat(first, last), count))
  {
    assert F.BuffersOk(bs);
    hide Holds, P.Heard, P.OnPacket, P.Packet, W.HeartbeatBytes, T.AfterInit, T.RequestFor;
    P.HeartbeatArrives(bs, self, g, first, last, count, s.clock);
    ToldOne(s.r, g, P.HeartbeatIn(g, first, last));
    StillHolds(bs, g, s, Arrived(s, Heartbeat(first, last)));
  }

  // What one fragment does to the buffers of each sample.
  lemma {:induction false} FragMovesBuffers(
    g: Guid, bs: F.Buffers, s: System, c: Change, size: u16, i: nat, now: int, sn: nat)
    requires Holds(bs, g, s) && IsWrite(s.written, c) && Sendable(Frag(c, size, i)) && Wrapped(c) <= F.MAX_REASSEMBLY
    requires 1 <= sn <= |s.written| < U64
    ensures |P.Wrap(c.payload)| == Wrapped(c)
    ensures var f := F.FragAt(g.entity, FromU64(c.sn), P.Wrap(c.payload), size, i);
      && F.Safe(bs, g, f, now)
      && R.Tracks(F.Receive(bs, g, f, now).0, F.Key(g, sn), P.Wrap(s.written[sn - 1]),
                  Standing(AfterFrag(s.r, c, size, i, now).0.parts, sn))
      && F.Receive(bs, g, f, now).1 ==
         if R.Took(Wrapped(c), Standing(s.r.parts, c.sn), size, i, now).1 then Some(P.Wrap(c.payload)) else None
  {
    hide P.Wrap, F.Receive, R.Tracks, R.Took, AfterFrag, F.Safe, R.Aged;
    P.WrapRoundTrip(c.payload);
    SeqNumRoundTrip(FromU64(c.sn), c.sn);
    var p, key := P.Wrap(c.payload), F.Key(g, c.sn);
    assert SampleHeld(bs, g, s, c.sn) && SampleHeld(bs, g, s, sn);
    var f := F.FragAt(g.entity, FromU64(c.sn), p, size, i);
    R.OwnArrives(bs, g, FromU64(c.sn), p, Standing(s.r.parts, c.sn), size, i, now);
    FragmentStanding(s.r, c, size, i, now, sn);
    if sn != c.sn {
      R.OwnFragment(g.entity, FromU64(c.sn), p, size, i, 0);
      R.ForeignArrives(bs, F.Key(g, sn), P.Wrap(s.written[sn - 1]), Standing(s.r.parts, sn), g, f, now);
    }
  }

  // The standing after a fragment, without the sweep that came first.
  lemma {:induction false} FragmentStanding(r: ReaderState, c: Change, size: nat, i: nat, now: int, sn: nat)
    requires size > 0 && Wrapped(c) <= F.MAX_REASSEMBLY
    ensures var u := AfterFrag(r, c, size, i, now).0;
      Standing(u.parts, sn) ==
      if c.sn == sn then R.Took(Wrapped(c), Standing(r.parts, sn), size, i, now).0
      else R.Aged(Standing(r.parts, sn), now)
  {
    hide T.AfterRecord, T.RequestFor;
    Swept1(r.parts, c.sn, now);
    Swept1(r.parts, sn, now);
    TookSwept(Wrapped(c), Standing(r.parts, c.sn), size, i, now);
  }

  lemma Swept1(parts: map<nat, R.Progress>, sn: nat, now: int)
    ensures Standing(Swept(parts, now), sn) == R.Aged(Standing(parts, sn), now)
  {}

  lemma TookSwept(total: nat, p: R.Progress, size: nat, i: nat, now: int)
    requires size > 0
    ensures R.Took(total, R.Aged(p, now), size, i, now) == R.Took(total, p, size, i, now)
    ensures var t := R.Took(total, p, size, i, now).0; t.Held? || t == R.Idle
  {}

  lemma {:induction false} FragTold(g: Guid, s: System, c: Change, size: nat, i: nat, now: int)
    requires size > 0 && Wrapped(c) <= F.MAX_REASSEMBLY
    ensures var done := R.Took(Wrapped(c), Standing(s.r.parts, c.sn), size, i, now).1;
      ToldAll(s.r, g, if done then [P.Dispatch(g, c.sn, c.payload)] else [])
      == AfterFrag(s.r, c, size, i, now).0.(parts := s.r.parts)
  {
    hide T.AfterRecord, T.RequestFor, R.Took;
    Swept1(s.r.parts, c.sn, now);
    TookSwept(Wrapped(c), Standing(s.r.parts, c.sn), size, i, now);
    ToldOne(s.r, g, P.Dispatch(g, c.sn, c.payload));
    ToldNothing(s.r, g);
  }

  // A fragment of a sample that can be reassembled.
  lemma {:induction false} FragIsRealised(
    g: Guid, self: Prefix, bs: F.Buffers, s: System, c: Change, size: u16, i: nat, count: i32)
    requires Holds(bs, g, s) && g.prefix != self && IsWrite(s.written, c) && |s.written| < U64
    requires Sendable(Frag(c, size, i)) && Wrapped(c) <= F.MAX_REASSEMBLY
    ensures Realised(g, self, bs, s, Arrived(s, Frag(c, size, i)), PacketOf(g, Frag(c, size, i), count))
  {
    hide P.Wrap, P.Packet, P.Heard, P.OnPacket, W.FragBytes, F.Receive, R.Tracks, R.Took, AfterFrag, ToldAll;
    var data, t := PacketOf(g, Frag(c, size, i), count), Arrived(s, Frag(c, size, i));
    P.WrapRoundTrip(c.payload);
    SeqNumRoundTrip(FromU64(c.sn), c.sn);
    assert SampleHeld(bs, g, s, c.sn);
    P.MineArrives(bs, self, g, FromU64(c.sn), P.Wrap(c.payload), size, Standing(s.r.parts, c.sn), i, s.clock);
    FragTold(g, s, c, size, i, s.clock);
    FragBuffers(g, self, bs, s, c, size, i, count);
  }

  lemma {:induction false} FragBuffers(
    g: Guid, self: Prefix, bs: F.Buffers, s: System, c: Change, size: u16, i: nat, count: i32)
    requires Holds(bs, g, s) && g.prefix != self && IsWrite(s.written, c) && |s.written| < U64
    requires Sendable(Frag(c, size, i)) && Wrapped(c) <= F.MAX_REASSEMBLY
    ensures var data := PacketOf(g, Frag(c, size, i), count);
      && P.AllInBounds(P.Heard(self, data))
      && Holds(P.OnPacket(bs, self, data, s.clock).0, g, Arrived(s, Frag(c, size, i)))
  {
    hide P.Wrap, P.Packet, P.Heard, P.OnPacket, W.FragBytes, F.Receive, R.Tracks, R.Took, AfterFrag;
    P.WrapRoundTrip(c.payload);
    SeqNumRoundTrip(FromU64(c.sn), c.sn);
    var f, now := F.FragAt(g.entity, FromU64(c.sn), P.Wrap(c.payload), size, i), s.clock;
    R.OwnLands(g.entity, FromU64(c.sn), P.Wrap(c.payload), size, {}, now, i);
    PieceFits(c, size, i);
    P.FragmentIsHeard(bs, self, g.prefix, f, now);
    var t := Arrived(s, Frag(c, size, i));
    FragMovesBuffers(g, bs, s, c, size, i, now, c.sn);
    KeysAfter(bs, g, f, now);
    forall sn | 1 <= sn <= |t.written| ensures SampleHeld(F.Receive(bs, g, f, now).0, g, t, sn) {
      FragMovesBuffers(g, bs, s, c, size, i, now, sn);
    }
  }

  // A fragment adds no key but its own.
  lemma KeysAfter(bs: F.Buffers, g: Guid, f: DataFrag, now: int)
    requires F.BuffersOk(bs) && F.Safe(bs, g, f, now)
    ensures forall k :: k in F.Receive(bs, g, f, now).0 ==> k in bs || k == F.KeyOf(g, f)
  {
    hide F.Absorb;
  }

  // A fragment of a sample beyond 16 MiB is dropped.
  lemma {:induction false} BigFragIsRealised(
    g: Guid, self: Prefix, bs: F.Buffers, s: System, c: Change, size: u16, i: nat, count: i32)
    requires Holds(bs, g, s) && g.prefix != self
    requires Sendable(Frag(c, size, i)) && Wrapped(c) > F.MAX_REASSEMBLY
    ensures Realised(g, self, bs, s, Arrived(s, Frag(c, size, i)), PacketOf(g, Frag(c, size, i), count))
  {
    assert F.BuffersOk(bs);
    hide Holds, P.Wrap, P.Packet, P.Heard, P.OnPacket, W.FragBytes, T.AfterRecord;
    P.WrapRoundTrip(c.payload);
    var f := F.FragAt(g.entity, FromU64(c.sn), P.Wrap(c.payload), size, i);
    PieceFits(c, size, i);
    assert !F.Plausible(f);
    P.FragmentIsHeard(bs, self, g.prefix, f, s.clock);
    ToldNothing(s.r, g);
    StillHolds(bs, g, s, Arrived(s, Frag(c, size, i)));
  }

  lemma PieceFits(c: Change, size: u16, i: nat)
    requires 0 < size && i < Pieces(c, size) && |P.Wrap(c.payload)| == Wrapped(c)
    ensures |F.Piece(P.Wrap(c.payload), size, i)| <= size
  {
    F.StartTotal(i, Wrapped(c), size);
  }

  // GAP is no business of the receive path.
  lemma {:induction false} GapIsRealised(
    g: Guid, self: Prefix, bs: F.Buffers, s: System, start: nat, end: nat, count: i32)
    requires Holds(bs, g, s) && g.prefix != self && Sendable(Gap(start, end))
    ensures Realised(g, self, bs, s, Arrived(s, Gap(start, end)), PacketOf(g, Gap(start, end), count))
  {
    assert F.BuffersOk(bs);
    hide Holds, P.Heard, P.OnPacket, P.Packet;
    P.GapIsIgnored(bs, self, g, FromU64(start), FromU64(end), s.clock);
    ToldNothing(s.r, g);
  }

  /** Every message from the writer that is in flight: the arrival of its packet
      has exactly the effect of the protocol step. */
  lemma {:induction false} ArrivalIsRealised(
    g: Guid, self: Prefix, bs: F.Buffers, s: System, cfg: Config, m: Msg, count: i32)
    requires cfg.Valid() && Inv(s, cfg) && m in s.net && Holds(bs, g, s) && g.prefix != self && !m.AckNack?
    requires SampleOf(m).Some? ==> Wrapped(SampleOf(m).value) < U32
    ensures Sendable(m) && Realised(g, self, bs, s, Arrived(s, m), PacketOf(g, m, count))
  {
    hide Realised, Holds, ReaderInv, PartsInv, IsTail, PacketOf, Arrived;
    assert Honest(s.written, m);
    match m
    case Data(c) => DataIsRealised(g, self, bs, s, c, count);
    case Heartbeat(first, last) => HeartbeatIsRealised(g, self, bs, s, first, last, count);
    case Gap(start, end) => GapIsRealised(g, self, bs, s, start, end, count);
    case Frag(c, size, i) =>
      if Wrapped(c) <= F.MAX_REASSEMBLY { FragIsRealised(g, self, bs, s, c, size, i, count); }
      else { BigFragIsRealised(g, self, bs, s, c, size, i, count); }
  }

  // A fragment of another writer, as it may come in.
  predicate IsForeign(g: Guid, self: Prefix, h: Guid, f: DataFrag) {
    && h != g && h.prefix != self && f.writer == h.entity && 32 + |f.payload| < U16
    && F.Plausible(f) && F.Fits(f, 0)
  }

  /** A fragment of any other writer only lets time pass. */
  lemma {:induction false} OtherFragmentIsRealised(
    g: Guid, self: Prefix, bs: F.Buffers, s: System, cfg: Config, h: Guid, f: DataFrag)
    requires cfg.Valid() && Holds(bs, g, s) && IsForeign(g, self, h, f)
    ensures Realised(g, self, bs, s, Next(s, cfg, OtherFragment), P.Packet(h.prefix, W.FragBytes(f)))
  {
    hide P.Packet, P.Heard, P.OnPacket, W.FragBytes, F.Receive, R.Tracks, R.Aged, P.Wrap, F.Fits, P.Unwrap;
    var t, now := Next(s, cfg, OtherFragment), s.clock;
    P.FragmentIsHeard(bs, self, h.prefix, f, now);
    KeysAfter(bs, h, f, now);
    forall sn | 1 <= sn <= |t.written| ensures SampleHeld(F.Receive(bs, h, f, now).0, g, t, sn) {
      assert SampleHeld(bs, g, s, sn);
      R.ForeignArrives(bs, F.Key(g, sn), P.Wrap(s.written[sn - 1]), Standing(s.r.parts, sn), h, f, now);
      Swept1(s.r.parts, sn, now);
    }
    NotTold(s.r, g, P.OnFrag(bs, h.prefix, f, now).1);
  }

  // What is reported of other writers is not this reader's.
  lemma NotTold(r: ReaderState, g: Guid, events: seq<P.Event>)
    requires |events| <= 1 && forall i :: 0 <= i < |events| ==> events[i].Dispatch? && events[i].source != g
    ensures ToldAll(r, g, events) == r
  {
    if |events| == 1 { assert events == [events[0]]; ToldOne(r, g, events[0]); }
  }

  // ---- Whole runs -------------------------------------------------------

  // The next write is not held in any buffer yet.
  lemma {:induction false} WriteKeepsHolds(bs: F.Buffers, g: Guid, s: System, cfg: Config, payload: Bytes)
    requires cfg.Valid() && Inv(s, cfg) && Holds(bs, g, s)
    ensures Holds(bs, g, Next(s, cfg, Write(payload)))
  {
    hide ReaderInv, NetInv, Messages, Advertise, Stored, P.Wrap;
    var t := Next(s, cfg, Write(payload));
    forall sn | 1 <= sn <= |t.written| ensures SampleHeld(bs, g, t, sn) {
      if sn <= |s.written| { assert SampleHeld(bs, g, s, sn); } else { NewIsNotHeld(bs, g, s, cfg, sn); }
    }
  }

  lemma NewIsNotHeld(bs: F.Buffers, g: Guid, s: System, cfg: Config, sn: nat)
    requires Inv(s, cfg) && Holds(bs, g, s) && sn == |s.written| + 1
    ensures Standing(s.r.parts, sn) == R.Idle && F.Key(g, sn) !in bs
  {
    hide WriterInv, ReaderInv, NetInv;
    forall k | k in s.r.parts ensures k != sn { assert PartOk(s.written, k, s.r.parts[k]); }
    forall k | k in bs ensures k != F.Key(g, sn) {}
  }

  // Steps that bring the reader's participant nothing.
  predicate Silent(step: Step) { !step.OtherFragment? && (step.Deliver? ==> step.m.AckNack?) }

  lemma {:induction false} SilentKeepsHolds(bs: F.Buffers, g: Guid, s: System, cfg: Config, step: Step)
    requires cfg.Valid() && Inv(s, cfg) && Holds(bs, g, s) && Silent(step)
    ensures Holds(bs, g, Next(s, cfg, step)) && Next(s, cfg, step).r == s.r
  {
    hide Inv, Holds, Answer, Messages, Advertise, Stored;
    if step.Write? { WriteKeepsHolds(bs, g, s, cfg, step.payload); }
    else { StillHolds(bs, g, s, Next(s, cfg, step)); }
  }

  /** The reader's participant: its assembler's buffers, and the reader. */
  datatype Peer = Peer(bs: F.Buffers, r: ReaderState)

  /** One step, with what it leaves open: the count of a HEARTBEAT, and the
      fragment that arrives from another writer. */
  datatype Input = Input(step: Step, count: i32, h: Guid, f: DataFrag)

  predicate InputOk(g: Guid, self: Prefix, input: Input) {
    match input.step
    case Write(payload) => 4 + |payload| < U32
    case OtherFragment => IsForeign(g, self, input.h, input.f)
    case _ => true
  }

  function StepsOf(inputs: seq<Input>): (r: seq<Step>)
    ensures |r| == |inputs|
  {
    if |inputs| == 0 then [] else [inputs[0].step] + StepsOf(inputs[1..])
  }

  // The bytes, if any, that one step of the protocol brings the participant.
  function Brought(g: Guid, s: System, input: Input): Option<Bytes> {
    match input.step
    case Deliver(m) => if m in s.net && Sendable(m) then Some(PacketOf(g, m, input.count)) else None
    case OtherFragment => Some(P.Packet(input.h.prefix, W.FragBytes(input.f)))
    case _ => None
  }

  // It knows the packets alone.
  function Hears(p: Peer, g: Guid, self: Prefix, data: Option<Bytes>, now: int): (q: Peer)
    requires F.BuffersOk(p.bs)
    ensures F.BuffersOk(q.bs)
  {
    if data.None? || !P.AllInBounds(P.Heard(self, data.value)) then p
    else
      var r := P.OnPacket(p.bs, self, data.value, now);
      Peer(r.0, ToldAll(p.r, g, r.1))
  }

  function PeerRun(p: Peer, g: Guid, self: Prefix, s: System, cfg: Config, inputs: seq<Input>): (q: Peer)
    requires cfg.Valid() && F.BuffersOk(p.bs)
    ensures F.BuffersOk(q.bs)
    decreases |inputs|
  {
    if |inputs| == 0 then p
    else
      var q := Hears(p, g, self, Brought(g, s, inputs[0]), s.clock);
      PeerRun(q, g, self, Next(s, cfg, inputs[0].step), cfg, inputs[1..])
  }

  /** The participant is where the protocol says: same tracker, same log, and
      buffers for the reassemblies in progress. */
  ghost predicate Agrees(p: Peer, g: Guid, s: System) {
    Holds(p.bs, g, s) && p.r == s.r.(parts := map[])
  }

  // The tracker and the log do not depend on the reassemblies.
  lemma {:induction false} ToldApart(r: ReaderState, g: Guid, events: seq<P.Event>, parts: map<nat, R.Progress>)
    ensures ToldAll(r.(parts := parts), g, events) == ToldAll(r, g, events).(parts := parts)
    decreases |events|
  {
    hide T.AfterRecord, T.AfterInit, T.RequestFor;
    if |events| > 0 { ToldApart(Told(r, g, events[0]), g, events[1..], parts); }
  }

  lemma {:induction false} HeardAgrees(p: Peer, g: Guid, self: Prefix, s: System, t: System, data: Bytes)
    requires Agrees(p, g, s) && Realised(g, self, p.bs, s, t, data)
    ensures Agrees(Hears(p, g, self, Some(data), s.clock), g, t)
  {
    hide Holds, P.Heard, P.OnPacket, ToldAll;
    assert F.BuffersOk(p.bs) by { HoldsIsOk(p.bs, g, s); }
    ToldApart(s.r, g, P.OnPacket(p.bs, self, data, s.clock).1, map[]);
  }

  lemma HoldsIsOk(bs: F.Buffers, g: Guid, s: System)
    requires Holds(bs, g, s)
    ensures F.BuffersOk(bs)
  {}

  ghost predicate SmallEnough(s: System) { forall i :: 0 <= i < |s.written| ==> 4 + |s.written[i]| < U32 }

  lemma {:induction false} StepAgrees(p: Peer, g: Guid, self: Prefix, s: System, cfg: Config, input: Input)
    requires cfg.Valid() && Inv(s, cfg) && SmallEnough(s) && g.prefix != self && InputOk(g, self, input)
    requires Agrees(p, g, s)
    ensures F.BuffersOk(p.bs) && SmallEnough(Next(s, cfg, input.step))
    ensures Agrees(Hears(p, g, self, Brought(g, s, input), s.clock), g, Next(s, cfg, input.step))
  {
    HoldsIsOk(p.bs, g, s);
    NextIsSmallEnough(s, cfg, input.step);
    hide Inv, Holds, PacketOf, Hears, Realised, Arrived, IsForeign, P.Packet, W.FragBytes;
    var step := input.step;
    if Silent(step) {
      SilentKeepsHolds(p.bs, g, s, cfg, step);
      NoPacket(p, g, self, s, input);
    } else if step.OtherFragment? {
      OtherFragmentIsRealised(g, self, p.bs, s, cfg, input.h, input.f);
      HeardAgrees(p, g, self, s, Next(s, cfg, step), P.Packet(input.h.prefix, W.FragBytes(input.f)));
    } else if step.m in s.net {
      SmallSample(s, cfg, step.m);
      ArrivalIsRealised(g, self, p.bs, s, cfg, step.m, input.count);
      HeardAgrees(p, g, self, s, Arrived(s, step.m), PacketOf(g, step.m, input.count));
    } else {
      NoPacket(p, g, self, s, input);
    }
  }

  lemma NoPacket(p: Peer, g: Guid, self: Prefix, s: System, input: Input)
    requires F.BuffersOk(p.bs) && (Silent(input.step) || (input.step.Deliver? && input.step.m !in s.net))
    ensures Hears(p, g, self, Brought(g, s, input), s.clock) == p
  {
    hide PacketOf;
  }

  lemma SmallSample(s: System, cfg: Config, m: Msg)
    requires Inv(s, cfg) && SmallEnough(s) && m in s.net
    ensures SampleOf(m).Some? ==> Wrapped(SampleOf(m).value) < U32
  {
    hide WriterInv, ReaderInv, PartsInv;
    assert Honest(s.written, m);
  }

  lemma NextIsSmallEnough(s: System, cfg: Config, step: Step)
    requires cfg.Valid() && SmallEnough(s) && (step.Write? ==> 4 + |step.payload| < U32)
    ensures SmallEnough(Next(s, cfg, step))
  {
    hide Messages, Answer, AfterData, AfterFrag, AfterHeartbeat, Advertise, Stored, Swept;
  }

  lemma {:induction false} RunAgrees(p: Peer, g: Guid, self: Prefix, s: System, cfg: Config, inputs: seq<Input>)
    requires cfg.Valid() && Inv(s, cfg) && SmallEnough(s) && g.prefix != self && Agrees(p, g, s)
    requires forall i :: 0 <= i < |inputs| ==> InputOk(g, self, inputs[i])
    ensures F.BuffersOk(p.bs)
    ensures Agrees(PeerRun(p, g, self, s, cfg, inputs), g, Run(s, cfg, StepsOf(inputs)))
    decreases |inputs|
  {
    hide Next, Inv, Agrees, SmallEnough, Hears, Brought, InputOk;
    assert F.BuffersOk(p.bs) by { AgreesIsOk(p, g, s); }
    if |inputs| > 0 {
      StepAgrees(p, g, self, s, cfg, inputs[0]);
      NextKeepsInv(s, cfg, inputs[0].step);
      var q := Hears(p, g, self, Brought(g, s, inputs[0]), s.clock);
      RunAgrees(q, g, self, Next(s, cfg, inputs[0].step), cfg, inputs[1..]);
      assert StepsOf(inputs)[0] == inputs[0].step && StepsOf(inputs)[1..] == StepsOf(inputs[1..]);
    }
  }

  lemma AgreesIsOk(p: Peer, g: Guid, s: System)
    requires Agrees(p, g, s)
    ensures F.BuffersOk(p.bs)
  {}

  /** Over every run of the protocol, with any fragments of other writers in
      between, a participant that is given the packets and nothing else ends
      with the protocol's tracker, log and reassemblies; so what it dispatched
      is what was written. */
  lemma {:induction false} EveryRunIsRealised(g: Guid, self: Prefix, cfg: Config, inputs: seq<Input>)
    requires cfg.Valid() && g.prefix != self && forall i :: 0 <= i < |inputs| ==> InputOk(g, self, inputs[i])
    ensures var p := PeerRun(Peer(map[], START.r), g, self, START, cfg, inputs);
      var s := Run(START, cfg, StepsOf(inputs));
      Agrees(p, g, s) && DispatchesWrites(p, s.written)
  {
    StartAgrees(g);
    hide Inv, Next, Agrees, InputOk, PeerRun, Run;
    StartInv(cfg);
    assert SmallEnough(START);
    RunAgrees(Peer(map[], START.r), g, self, START, cfg, inputs);
    EveryRunIsSafe(cfg, StepsOf(inputs));
    SafeWhereAgreed(PeerRun(Peer(map[], START.r), g, self, START, cfg, inputs), g, Run(START, cfg, StepsOf(inputs)));
  }

  // The participant's log holds writes alone, and each one between its base and
  // its watermark.
  ghost predicate DispatchesWrites(p: Peer, written: seq<Bytes>) {
    && (forall c :: c in p.r.log ==> IsWrite(written, c))
    && (p.r.tracker.initDone ==>
         forall k: nat :: p.r.base <= k < p.r.tracker.expected ==> Logged(p, written, k))
  }

  predicate Logged(p: Peer, written: seq<Bytes>, k: nat) {
    1 <= k <= |written| && WriteUnder(written, k) in p.r.log
  }

  lemma StartAgrees(g: Guid)
    ensures Agrees(Peer(map[], START.r), g, START)
  {}

  lemma SafeWhereAgreed(p: Peer, g: Guid, s: System)
    requires Agrees(p, g, s) && forall c :: c in s.r.log ==> IsWrite(s.written, c)
    requires s.r.tracker.initDone ==> forall k :: s.r.base <= k < s.r.tracker.expected ==> Dispatched(s, k)
    ensures DispatchesWrites(p, s.written)
  {
    hide Holds;
    assert p.r.log == s.r.log && p.r.tracker == s.r.tracker && p.r.base == s.r.base;
    forall k: nat | p.r.tracker.initDone && p.r.base <= k < p.r.tracker.expected
      ensures Logged(p, s.written, k)
    {
      assert Dispatched(s, k);
    }
  }
}
