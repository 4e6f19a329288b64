module Stranding {
  // What keeps a watermark where it is: rounds that bring nothing because a
  // reassembly in another size is in the way, and the exact condition under
  // which the watermark can ever move again (src/rtps/participant.cpp).

  import opened Octets
  import opened Bits
  import opened RecvTracking
  import opened History
  import opened Delivery
  import opened Recovery
  import F = Fragments
  import R = Reassembly

  // ---- Steps that bring nothing -----------------------------------------

  /** The step brings no sample c past the reassembly p: not in one piece, and
      in fragments only if c is too big or p is in another size. */
  predicate Fruitless(step: Step, c: Change, p: R.Progress) {
    match step
    case Deliver(Data(d)) => d.sn != c.sn
    case Deliver(Frag(d, size, _)) => d.sn == c.sn ==> Wrapped(c) > F.MAX_REASSEMBLY || (p.Held? && size != p.fs)
    case _ => true
  }

  // p, if any, is not stale at that time.
  predicate Live(p: R.Progress, now: int) { p.Held? ==> now - p.created <= F.STALE_AGE }

  lemma {:induction false} RecordElsewhere(t: Tracker, sn: nat)
    requires t.initDone && sn != t.expected
    ensures AfterRecord(t, sn).expected == t.expected && AfterRecord(t, sn).initDone
  {}

  lemma {:induction false} DataElsewhere(r: ReaderState, d: Change)
    requires r.tracker.initDone && d.sn != r.tracker.expected
    ensures var u := AfterData(r, d).0;
      u.tracker.initDone && u.tracker.expected == r.tracker.expected && u.parts == r.parts
  {
    hide AfterRecord;
    RecordElsewhere(r.tracker, d.sn);
  }

  // A fragment of another sample only lets time pass for this one.
  lemma {:induction false} FragElsewhere(r: ReaderState, d: Change, size: nat, i: nat, now: int)
    requires r.tracker.initDone && d.sn != r.tracker.expected && size > 0
    ensures var u, e := AfterFrag(r, d, size, i, now).0, r.tracker.expected;
      && u.tracker.initDone && u.tracker.expected == e
      && Standing(u.parts, e) == if Wrapped(d) <= F.MAX_REASSEMBLY then R.Aged(Standing(r.parts, e), now)
                                 else Standing(r.parts, e)
  {
    hide AfterData, R.Took;
    if Wrapped(d) <= F.MAX_REASSEMBLY {
      FragStanding(r, d, size, i, now, r.tracker.expected);
      var live := Swept(r.parts, now);
      var t := R.Took(Wrapped(d), Standing(live, d.sn), size, i, now);
      if t.1 { DataElsewhere(r.(parts := Put(live, d.sn, t.0)), d); }
    }
  }

  // A fragment in another size than the reassembly's changes nothing.
  lemma {:induction false} FragInOtherSize(r: ReaderState, c: Change, size: nat, i: nat, now: int)
    requires size > 0
    requires var p := Standing(r.parts, c.sn);
      Wrapped(c) > F.MAX_REASSEMBLY || (p.Held? && size != p.fs && now - p.created <= F.STALE_AGE)
    ensures var u := AfterFrag(r, c, size, i, now).0;
      u.tracker == r.tracker && Standing(u.parts, c.sn) == Standing(r.parts, c.sn)
  {
    if Wrapped(c) <= F.MAX_REASSEMBLY {
      SweptStanding(r.parts, c.sn, now);
      FragStanding(r, c, size, i, now, c.sn);
    }
  }

  lemma {:induction false} StandStep(s: System, cfg: Config, step: Step, c: Change)
    requires cfg.Valid() && Inv(s, cfg) && s.r.tracker.initDone && c.sn == s.r.tracker.expected
    requires IsWrite(s.written, c)
    requires Fruitless(step, c, Standing(s.r.parts, c.sn)) && Live(Standing(s.r.parts, c.sn), s.clock)
    ensures var u := Next(s, cfg, step).r;
      && u.tracker.initDone && u.tracker.expected == c.sn
      && Standing(u.parts, c.sn) == Standing(s.r.parts, c.sn)
  {
    hide Messages, Answer, AfterData, AfterFrag, ReaderInv, PartsInv, WriterInv, Honest, Advertise;
    match step
    case OtherFragment => SweptStanding(s.r.parts, c.sn, s.clock);
    case Deliver(m) =>
      if m in s.net {
        match m
        case Data(d) => DataElsewhere(s.r, d);
        case Frag(d, size, i) => if size > 0 { FragStands(s, d, size, i, c); }
        case _ =>
      }
    case _ =>
  }

  lemma {:induction false} FragStands(s: System, d: Change, size: nat, i: nat, c: Change)
    requires NetInv(s) && s.r.tracker.initDone && c.sn == s.r.tracker.expected && size > 0
    requires IsWrite(s.written, c) && Frag(d, size, i) in s.net
    requires Live(Standing(s.r.parts, c.sn), s.clock)
    requires Fruitless(Deliver(Frag(d, size, i)), c, Standing(s.r.parts, c.sn))
    ensures var u := AfterFrag(s.r, d, size, i, s.clock).0;
      && u.tracker.initDone && u.tracker.expected == c.sn
      && Standing(u.parts, c.sn) == Standing(s.r.parts, c.sn)
  {
    hide AfterFrag;
    assert Honest(s.written, Frag(d, size, i));
    if d.sn == c.sn { FragInOtherSize(s.r, c, size, i, s.clock); } else { FragElsewhere(s.r, d, size, i, s.clock); }
  }

  // However many such steps are taken, the watermark stays.
  lemma {:induction false} StandsStill(s: System, cfg: Config, ds: seq<Step>, c: Change)
    requires cfg.Valid() && Inv(s, cfg) && s.r.tracker.initDone && c.sn == s.r.tracker.expected
    requires IsWrite(s.written, c)
    requires forall k :: 0 <= k < |ds| ==> Fruitless(ds[k], c, Standing(s.r.parts, c.sn))
    requires Live(Standing(s.r.parts, c.sn), s.clock + Elapsed(ds))
    ensures Run(s, cfg, ds).r.tracker.expected == c.sn
    decreases |ds|
  {
    hide Next, Inv, Fruitless, Run;
    if |ds| == 0 {
      RunNothing(s, cfg, ds);
    } else {
      RunStep(s, cfg, ds);
      StandStep(s, cfg, ds[0], c);
      NextClock(s, cfg, ds[0]);
      NextKeepsInv(s, cfg, ds[0]);
      NextExtends(s, cfg, ds[0]);
      StandsStill(Next(s, cfg, ds[0]), cfg, ds[1..], c);
    }
  }

  // ---- When a round moves the watermark ---------------------------------

  // `ds` brings sample sn in fragments of the default size or not at all.
  predicate OnlyFragments(ds: seq<Step>, sn: nat) {
    forall k :: 0 <= k < |ds| && ds[k].Deliver? && ds[k].m.Data? ==> ds[k].m.change.sn != sn
  }

  /** A lossless round whose next sample comes in fragments, within the stale
      age, moves the watermark exactly when that sample is no larger than 16 MiB
      and no live reassembly holds it in another size. */
  lemma {:induction false} RoundMoves(s: System, cfg: Config, ds: seq<Step>, start: int)
    requires cfg.Valid() && Inv(s, cfg) && WatermarkHeld(s) && Lossless(s, cfg, ds)
    requires 1 <= Watermark(s) <= s.w.seqNo == |s.written|
    requires Wrapped(WriteUnder(s.written, Watermark(s))) > DEFAULT
    requires Calm(s.clock, ds, Watermark(s), DEFAULT, start) && OnlyFragments(ds, Watermark(s))
    requires Settled(Standing(s.r.parts, Watermark(s)), start)
    ensures Round(s, cfg, ds).r.tracker.expected > Watermark(s) <==>
            && Wrapped(WriteUnder(s.written, Watermark(s))) <= F.MAX_REASSEMBLY
            && !Blocked(Standing(s.r.parts, Watermark(s)), start)
  {
    hide Inv, Lossless, Asked, Run, Got;
    AskedKeepsUp(s, cfg);
    var v, u, e := Asked(s, cfg), Round(s, cfg, ds), Watermark(s);
    var c, p := WriteUnder(s.written, e), Standing(s.r.parts, e);
    RunKeepsInv(v, cfg, ds);
    if Wrapped(c) <= F.MAX_REASSEMBLY && !Blocked(p, start) {
      assert Ready(p, DEFAULT, start);
      RoundTakesIn(s, cfg, ds, e);
      WatermarkIsPast(u, cfg, e);
    } else {
      BigIsNotHeld(v, cfg, c);
      forall k | 0 <= k < |ds| ensures Fruitless(ds[k], c, p) {
        assert StepCalm(ds[k], e, DEFAULT);
      }
      StandsStill(v, cfg, ds, c);
    }
  }

  lemma BigIsNotHeld(s: System, cfg: Config, c: Change)
    requires Inv(s, cfg) && IsWrite(s.written, c)
    ensures Wrapped(c) > F.MAX_REASSEMBLY ==> !Standing(s.r.parts, c.sn).Held?
  {
    hide WriterInv, NetInv, ReaderInv;
    assert WriteUnder(s.written, c.sn) == c;
  }

  // ---- A TSN bound gets in the way --------------------------------------

  // The first write, and its first live fragment arrives after its HEARTBEAT.
  function FirstFragment(payload: Bytes, size: nat): seq<Step> {
    [Write(payload), Deliver(Heartbeat(1, 1)), Deliver(Frag(Change(1, payload), size, 0))]
  }

  // After the first write and its HEARTBEAT.
  lemma {:induction false} FirstContact(cfg: Config, payload: Bytes) returns (s: System)
    requires cfg.Valid()
    ensures s == Next(Next(START, cfg, Write(payload)), cfg, Deliver(Heartbeat(1, 1)))
    ensures var c := Change(1, payload);
      && s.w == WriterState(1, [c], false) && s.written == [payload]
      && s.r == ReaderState(Tracker(1, {}, true), 1, [], map[]) && s.clock == 0
      && forall m :: SampleOf(m).Some? ==> (m in s.net <==> Carries(m, c, cfg.size))
  {
    hide Messages, Carries;
    var c := Change(1, payload);
    assert Stored([], cfg.depth, c) == [c];
    assert Advertise([c]) == [Heartbeat(1, 1)] && Heartbeat(1, 1) in Advertise([c]);
    var t := Next(START, cfg, Write(payload));
    forall m ensures m in t.net <==> Carries(m, c, cfg.size) || m == Heartbeat(1, 1) {
      MessagesCarry(m, c, cfg.size);
    }
    s := Next(t, cfg, Deliver(Heartbeat(1, 1)));
    OnlyAcks(t.r, c, 1, 0, 0, 1, 1);
    assert [] + [payload] == [payload];
  }

  /** With a live size below the default such reassemblies do come about: the
      first fragment to arrive of the first write is enough. */
  lemma {:induction false} SmallerLiveSizeBlocks(cfg: Config, payload: Bytes)
    requires cfg.Valid() && cfg.size < DEFAULT < 4 + |payload| <= F.MAX_REASSEMBLY
    ensures var s := Run(START, cfg, FirstFragment(payload, cfg.size));
      && WatermarkHeld(s) && s.r.tracker.initDone && Watermark(s) == 1 == s.w.seqNo
      && Standing(s.r.parts, 1) == R.Held(cfg.size, {0}, s.clock) && Blocked(Standing(s.r.parts, 1), s.clock)
  {
    hide AfterFrag;
    var c, fs := Change(1, payload), cfg.size;
    var s := FirstContact(cfg, payload);
    assert Frag(c, fs, 0) in s.net;
    FirstIsHeld(s.r, c, fs, 0);
    RunThree(START, cfg, FirstFragment(payload, fs));
  }

  lemma {:induction false} RunThree(s: System, cfg: Config, a: seq<Step>)
    requires cfg.Valid() && |a| == 3
    ensures Run(s, cfg, a) == Next(Next(Next(s, cfg, a[0]), cfg, a[1]), cfg, a[2])
  {
    hide Next;
    var t := Next(s, cfg, a[0]);
    var u := Next(t, cfg, a[1]);
    assert Run(t, cfg, a[1..]) == Run(u, cfg, a[1..][1..]);
    assert a[1..][1..] == a[2..] && a[2..][0] == a[2];
    RunStep(u, cfg, a[2..]);
    RunNothing(Next(u, cfg, a[2]), cfg, a[2..][1..]);
  }

  lemma {:induction false} FirstIsHeld(r: ReaderState, c: Change, size: nat, now: int)
    requires 0 < size < Wrapped(c) <= F.MAX_REASSEMBLY && r.parts == map[]
    ensures var u := AfterFrag(r, c, size, 0, now).0;
      u.tracker == r.tracker && Standing(u.parts, c.sn) == R.Held(size, {0}, now)
  {
    var one: nat, got: set<nat> := 1, {} + {0};
    assert F.Total(Wrapped(c) - size, size) > 0;
    assert one < F.Total(Wrapped(c), size) && one !in got;
    assert Swept(r.parts, now) == map[] && got == {0};
    assert R.Took(Wrapped(c), R.Idle, size, 0, now) == (R.Held(size, got, now), false);
  }

  // ---- When the watermark can move at all -------------------------------

  // What is left of the reassembly of sample sn by now.
  function Current(s: System, sn: nat): R.Progress { R.Aged(Standing(s.r.parts, sn), s.clock) }

  // Every fragment of c in this size is in flight, or was collected and is not
  // stale.
  predicate InReach(s: System, c: Change, size: nat) {
    && size > 0
    && forall i: nat :: i < Pieces(c, size) ==> Frag(c, size, i) in s.net || HasCollected(Current(s, c.sn), size, i)
  }

  predicate HasCollected(p: R.Progress, size: nat, i: nat) { p.Held? && p.fs == size && i in p.got }

  /** Sample c can still reach the reader: it is in flight in one piece, or it is
      no larger than 16 MiB and either retained by an open writer or in flight in
      fragments of some size. */
  ghost predicate Obtainable(s: System, c: Change) {
    || Data(c) in s.net
    || (&& Wrapped(c) <= F.MAX_REASSEMBLY
        && ((!s.w.closed && Retained(s.w.history, c.sn)) || exists size :: InReach(s, c, size)))
  }

  /** The reader has made contact and misses the sample at its watermark. */
  ghost predicate Misses(s: System, cfg: Config, c: Change) {
    Inv(s, cfg) && s.r.tracker.initDone && c.sn == s.r.tracker.expected && IsWrite(s.written, c)
  }

  // ---- ...it cannot, once the sample is out of reach --------------------

  // What an answer sends is within reach already.
  lemma {:induction false} AnswerStaysOut(s: System, cfg: Config, c: Change, base: nat, bitmap: nat)
    requires cfg.Valid() && Misses(s, cfg, c) && !Obtainable(s, c)
    ensures Misses(Answered(s, base, bitmap), cfg, c) && !Obtainable(Answered(s, base, bitmap), c)
  {
    hide ReaderInv, PartsInv, Answer, Retained;
    AnsweredKeepsInv(s, cfg, base, bitmap);
    var t := Answered(s, base, bitmap);
    forall m | m in t.net && SampleOf(m) == Some(c) ensures m in s.net || (m.Frag? && Wrapped(c) > F.MAX_REASSEMBLY) {
      if m !in s.net { AnswerIsHonest(s.w.history, cfg.depth, s.written, base, bitmap, m); }
    }
    NoMoreInReach(s, t, c);
  }

  // If nothing new of c is in flight and its reassembly did not grow, nothing
  // new is within reach.
  lemma {:induction false} NoMoreInReach(s: System, t: System, c: Change)
    requires Wrapped(c) <= F.MAX_REASSEMBLY ==> forall m :: m in t.net && SampleOf(m) == Some(c) ==> m in s.net
    requires Current(t, c.sn).Held? ==> Current(t, c.sn) == Current(s, c.sn)
    ensures Wrapped(c) <= F.MAX_REASSEMBLY ==> forall size :: InReach(t, c, size) ==> InReach(s, c, size)
  {
    forall size | Wrapped(c) <= F.MAX_REASSEMBLY && InReach(t, c, size) ensures InReach(s, c, size) {
      forall i: nat | i < Pieces(c, size) && Frag(c, size, i) in t.net ensures Frag(c, size, i) in s.net {
        assert SampleOf(Frag(c, size, i)) == Some(c);
      }
    }
  }

  lemma AgedTwice(total: nat, p: R.Progress, size: nat, i: nat, now: int)
    requires size > 0
    ensures R.Aged(R.Aged(p, now), now) == R.Aged(p, now)
    ensures R.Took(total, R.Aged(p, now), size, i, now) == R.Took(total, p, size, i, now)
  {}

  lemma TookAll(total: nat, p: R.Progress, size: nat, i: nat, now: int, j: nat)
    requires size > 0 && R.Took(total, p, size, i, now).1 && j < F.Total(total, size)
    ensures j == i || HasCollected(R.Aged(p, now), size, j)
  {
    var t := R.Aged(p, now);
    var got := (if t.Held? then t.got else {}) + {i};
    assert R.Complete(total, size, got);
    assert j in got;
  }

  lemma CompletionWasInReach(s: System, c: Change, size: nat, i: nat)
    requires size > 0 && Frag(c, size, i) in s.net
    ensures R.Took(Wrapped(c), Standing(s.r.parts, c.sn), size, i, s.clock).1 ==> InReach(s, c, size)
  {
    var p := Standing(s.r.parts, c.sn);
    if R.Took(Wrapped(c), p, size, i, s.clock).1 {
      forall j: nat | j < Pieces(c, size) ensures Frag(c, size, j) in s.net || HasCollected(Current(s, c.sn), size, j) {
        TookAll(Wrapped(c), p, size, i, s.clock, j);
      }
    }
  }

  // What is collected after a fragment that completes nothing.
  lemma TookMore(total: nat, p: R.Progress, size: nat, i: nat, now: int, fs: nat, j: nat)
    requires size > 0 && !R.Took(total, p, size, i, now).1
    ensures HasCollected(R.Aged(R.Took(total, p, size, i, now).0, now), fs, j) ==>
              HasCollected(R.Aged(p, now), fs, j) || (fs == size && j == i)
  {}

  // Neither does a fragment that does not complete the sample.
  lemma {:induction false} FragStaysOut(s: System, cfg: Config, c: Change, size: nat, i: nat)
    requires Misses(s, cfg, c) && !Obtainable(s, c) && Frag(c, size, i) in s.net && size > 0
    ensures var u := AfterFrag(s.r, c, size, i, s.clock).0;
      && u.tracker == s.r.tracker
      && forall fs :: Wrapped(c) <= F.MAX_REASSEMBLY && InReach(s.(r := u), c, fs) ==> InReach(s, c, fs)
  {
    hide Inv, AfterData, Swept, R.Took, R.Aged;
    if Wrapped(c) <= F.MAX_REASSEMBLY {
      var p := Standing(s.r.parts, c.sn);
      SweptStanding(s.r.parts, c.sn, s.clock);
      FragStanding(s.r, c, size, i, s.clock, c.sn);
      AgedTwice(Wrapped(c), p, size, i, s.clock);
      CompletionWasInReach(s, c, size, i);
      forall fs, j: nat ensures HasCollected(Current(s.(r := AfterFrag(s.r, c, size, i, s.clock).0), c.sn), fs, j) ==>
                               HasCollected(Current(s, c.sn), fs, j) || (fs == size && j == i)
      {
        TookMore(Wrapped(c), p, size, i, s.clock, fs, j);
      }
    }
  }

  lemma {:induction false} StepStaysOut(s: System, cfg: Config, step: Step, c: Change)
    requires cfg.Valid() && Misses(s, cfg, c) && !Obtainable(s, c)
    ensures Misses(Next(s, cfg, step), cfg, c) && !Obtainable(Next(s, cfg, step), c)
  {
    hide ReaderInv, PartsInv, WriterInv, Honest, Messages, Answer, AfterData, AfterFrag, AfterHeartbeat, InReach,
         Retained, Advertise, Swept, Answered, Stored;
    NextKeepsInv(s, cfg, step);
    NextExtends(s, cfg, step);
    var t := Next(s, cfg, step);
    match step
    case Write(payload) => WriteStaysOut(s, cfg, payload, c);
    case ForeignAckNack(base, bitmap) => AnswerStaysOut(s, cfg, c, base, bitmap);
    case Deliver(m) =>
      if m in s.net { ArrivalStaysOut(s, cfg, m, c); }
    case OtherFragment =>
      SweptStanding(s.r.parts, c.sn, s.clock);
      NoMoreInReach(s, t, c);
    case Tick =>
      OnlyHeartbeats(s.w.history);
      NoMoreInReach(s, t, c);
    case _ => NoMoreInReach(s, t, c);
  }

  lemma OnlyHeartbeats(h: seq<Change>)
    ensures forall m :: m in Advertise(h) ==> m.Heartbeat?
  {}

  lemma {:induction false} WriteStaysOut(s: System, cfg: Config, payload: Bytes, c: Change)
    requires cfg.Valid() && Misses(s, cfg, c) && !Obtainable(s, c)
    ensures var t := Next(s, cfg, Write(payload));
      t.r == s.r && !Obtainable(t, c)
  {
    hide ReaderInv, PartsInv, NetInv, Messages, InReach, Advertise;
    var t, d := Next(s, cfg, Write(payload)), Change(s.w.seqNo + 1, payload);
    OnlyHeartbeats(t.w.history);
    forall m | m in t.net && SampleOf(m) == Some(c) ensures m in s.net {
      if m in Messages(d, cfg.size) { MessagesCarry(m, d, cfg.size); }
    }
    NoMoreInReach(s, t, c);
  }

  lemma {:induction false} ArrivalStaysOut(s: System, cfg: Config, m: Msg, c: Change)
    requires cfg.Valid() && Misses(s, cfg, c) && !Obtainable(s, c) && m in s.net
    ensures var t := Arrived(s, m);
      t.r.tracker.initDone && t.r.tracker.expected == c.sn && !Obtainable(t, c)
  {
    hide ReaderInv, PartsInv, WriterInv, Answer, AfterData, AfterFrag, AfterHeartbeat, InReach, Retained, Answered;
    assert Honest(s.written, m);
    var t := Arrived(s, m);
    match m
    case Data(d) =>
      DataElsewhere(s.r, d);
      OnlyAcks(s.r, d, 1, 0, 0, 0, 0);
      NoMoreInReach(s, t, c);
    case Frag(d, size, i) =>
      OnlyAcks(s.r, d, size, i, s.clock, 0, 0);
      if d.sn == c.sn {
        FragStaysOut(s, cfg, c, size, i);
        NoMoreInReach(s.(r := t.r), t, c);
      } else {
        FragElsewhere(s.r, d, size, i, s.clock);
        NoMoreInReach(s, t, c);
      }
    case Heartbeat(first, last) =>
      HeartbeatElsewhere(s.r, first, last);
      OnlyAcks(s.r, c, 1, 0, 0, first, last);
      NoMoreInReach(s, t, c);
    case AckNack(base, bitmap) => AnswerStaysOut(s, cfg, c, base, bitmap);
    case Gap(_, _) =>
  }

  lemma HeartbeatElsewhere(r: ReaderState, first: nat, last: nat)
    requires r.tracker.initDone
    ensures var u := AfterHeartbeat(r, first, last).0; u == r
  {}

  // GAP is ignored and nothing brings the sample back: the watermark never
  // moves again, whatever happens.
  lemma {:induction false} StrandedForever(s: System, cfg: Config, steps: seq<Step>, c: Change)
    requires cfg.Valid() && Misses(s, cfg, c) && !Obtainable(s, c)
    ensures var u := Run(s, cfg, steps); Misses(u, cfg, c) && !Obtainable(u, c)
    decreases |steps|
  {
    hide Next, Misses, Obtainable, Run;
    if |steps| == 0 {
      RunNothing(s, cfg, steps);
    } else {
      RunStep(s, cfg, steps);
      StepStaysOut(s, cfg, steps[0], c);
      StrandedForever(Next(s, cfg, steps[0]), cfg, steps[1..], c);
    }
  }

  // ---- ...and it can, as long as it is within reach ---------------------

  // Once the sample is taken in, the watermark has moved.
  lemma {:induction false} TakenInMoves(s: System, cfg: Config, steps: seq<Step>, c: Change)
    requires cfg.Valid() && Misses(s, cfg, c) && c.sn in Got(Run(s, cfg, steps).r)
    ensures Run(s, cfg, steps).r.tracker.expected > c.sn
  {
    hide Inv, Run, Got;
    RunKeepsInv(s, cfg, steps);
    WatermarkIsPast(Run(s, cfg, steps), cfg, c.sn);
  }

  lemma {:induction false} DataMoves(s: System, cfg: Config, c: Change) returns (steps: seq<Step>)
    requires cfg.Valid() && Misses(s, cfg, c) && Data(c) in s.net
    ensures Run(s, cfg, steps).r.tracker.expected > c.sn
  {
    hide Inv, Run, Got;
    steps := [Deliver(Data(c))];
    WatermarkInRange(s, cfg);
    assert Deliver(Data(c)) in steps;
    DeliveredIsTakenIn(s, cfg, steps, c);
    TakenInMoves(s, cfg, steps, c);
  }

  // Every fragment arrives, without a pause.
  function Deliveries(c: Change, size: nat): seq<Step>
    requires size > 0
  {
    seq(Pieces(c, size), i requires 0 <= i < Pieces(c, size) => Deliver(Frag(c, size, i)))
  }

  lemma {:induction false} DeliveriesTakeIn(s: System, cfg: Config, c: Change, size: nat)
    requires cfg.Valid() && Misses(s, cfg, c) && Wrapped(c) <= F.MAX_REASSEMBLY && InReach(s, c, size)
    requires Current(s, c.sn).Held? ==> Current(s, c.sn).fs == size
    ensures Run(s, cfg, Deliveries(c, size)).r.tracker.expected > c.sn
  {
    hide Inv, Run, Got;
    var ds := Deliveries(c, size);
    NothingElapses(ds);
    WatermarkInRange(s, cfg);
    StandingInPast(s, cfg, c);
    var start := if Current(s, c.sn).Held? then Current(s, c.sn).created else s.clock;
    forall i: nat | i < Pieces(c, size)
      ensures i in Collected(Standing(s.r.parts, c.sn), start) || Coming(s, ds, Frag(c, size, i))
    {
      assert ds[i] == Deliver(Frag(c, size, i));
    }
    SampleIsTakenIn(s, cfg, ds, c, size, start);
    TakenInMoves(s, cfg, ds, c);
  }

  lemma StandingInPast(s: System, cfg: Config, c: Change)
    requires Inv(s, cfg) && IsWrite(s.written, c)
    ensures Standing(s.r.parts, c.sn).Held? ==> Standing(s.r.parts, c.sn).created <= s.clock
  {
    hide WriterInv, NetInv, ReaderInv;
    StandingIsPart(s, c.sn);
  }

  lemma {:induction false} FragmentsMove(s: System, cfg: Config, c: Change, size: nat) returns (steps: seq<Step>)
    requires cfg.Valid() && Misses(s, cfg, c) && Wrapped(c) <= F.MAX_REASSEMBLY && InReach(s, c, size)
    ensures Run(s, cfg, steps).r.tracker.expected > c.sn
  {
    hide Misses, Run;
    var p := Current(s, c.sn);
    if p.Held? && p.fs != size {
      var t := GoesStale(s, cfg, c);
      DeliveriesTakeIn(t, cfg, c, size);
      steps := [Wait(F.STALE_AGE + 1)] + Deliveries(c, size);
      RunStep(s, cfg, steps);
      assert steps[1..] == Deliveries(c, size);
    } else {
      steps := Deliveries(c, size);
      DeliveriesTakeIn(s, cfg, c, size);
    }
  }

  // Any reassembly in the way goes stale in time.
  lemma {:induction false} GoesStale(s: System, cfg: Config, c: Change) returns (t: System)
    requires cfg.Valid() && Misses(s, cfg, c)
    ensures t == Next(s, cfg, Wait(F.STALE_AGE + 1)) && Misses(t, cfg, c) && t.net == s.net
    ensures Current(t, c.sn) == R.Idle
  {
    hide Inv;
    StandingInPast(s, cfg, c);
    t := Next(s, cfg, Wait(F.STALE_AGE + 1));
    NextKeepsInv(s, cfg, Wait(F.STALE_AGE + 1));
  }

  lemma {:induction false} AskedIsRun(s: System, cfg: Config) returns (steps: seq<Step>)
    requires cfg.Valid()
    ensures Run(s, cfg, steps) == Asked(s, cfg)
  {
    hide Next;
    var hb := Advertise(s.w.history);
    var t := Announced(s, cfg);
    var ack := AckFor(t.r.tracker, Last(t.w.history));
    var first := [Tick] + if hb == [] then [] else [Deliver(hb[0])];
    var second := if ack == [] then [] else [Deliver(ack[0])];
    OneMore(s, cfg, Tick, if hb == [] then [] else [Deliver(hb[0])]);
    assert Run(s, cfg, first) == t by { if hb != [] { OneMore(Next(s, cfg, Tick), cfg, Deliver(hb[0]), []); } }
    if ack != [] { OneMore(t, cfg, Deliver(ack[0]), []); }
    steps := first + second;
    RunConcat(s, cfg, first, second);
  }

  lemma OneMore(s: System, cfg: Config, step: Step, more: seq<Step>)
    requires cfg.Valid()
    ensures Run(s, cfg, [step] + more) == Run(Next(s, cfg, step), cfg, more)
  {
    hide Next;
    assert ([step] + more)[1..] == more;
  }

  // What an open writer retains comes back in a round.
  lemma {:induction false} RetainedMoves(s: System, cfg: Config, c: Change) returns (steps: seq<Step>)
    requires cfg.Valid() && Misses(s, cfg, c) && Wrapped(c) <= F.MAX_REASSEMBLY
    requires !s.w.closed && Retained(s.w.history, c.sn)
    ensures Run(s, cfg, steps).r.tracker.expected > c.sn
  {
    hide Run, Asked, Inv, Got;
    RetainedIsHeld(s, cfg, c);
    var t := Asked(s, cfg);
    AskedKeepsUp(s, cfg);
    var first := AskedIsRun(s, cfg);
    var second: seq<Step>;
    if c.sn in Got(t.r) { WatermarkIsPast(t, cfg, c.sn); }
    forall m | Brings(m, s.written, c.sn) ensures m in t.net { AskedIsSent(s, cfg, c.sn, m); }
    assert WriteUnder(s.written, c.sn) == c;
    if Wrapped(c) <= DEFAULT {
      assert Brings(Data(c), s.written, c.sn);
      second := DataMoves(t, cfg, c);
    } else {
      forall i: nat | i < Pieces(c, DEFAULT) ensures Frag(c, DEFAULT, i) in t.net {
        assert Brings(Frag(c, DEFAULT, i), s.written, c.sn);
      }
      second := FragmentsMove(t, cfg, c, DEFAULT);
    }
    steps := first + second;
    RunConcat(s, cfg, first, second);
  }

  lemma RetainedIsHeld(s: System, cfg: Config, c: Change)
    requires cfg.Valid() && Misses(s, cfg, c) && !s.w.closed && Retained(s.w.history, c.sn)
    ensures WatermarkHeld(s) && Watermark(s) == c.sn && InWindow(s, c.sn)
  {
    hide ReaderInv, NetInv, PartsInv;
  }

  lemma {:induction false} WatermarkMoves(s: System, cfg: Config, c: Change) returns (steps: seq<Step>)
    requires cfg.Valid() && Misses(s, cfg, c) && Obtainable(s, c)
    ensures Run(s, cfg, steps).r.tracker.expected > c.sn
  {
    hide Misses, Run, InReach;
    if Data(c) in s.net {
      steps := DataMoves(s, cfg, c);
    } else if !s.w.closed && Retained(s.w.history, c.sn) {
      steps := RetainedMoves(s, cfg, c);
    } else {
      var size :| InReach(s, c, size);
      steps := FragmentsMove(s, cfg, c, size);
    }
  }

  // ---- The law ----------------------------------------------------------

  /** From every reachable state in which the reader misses a written sample,
      some continuation moves the watermark exactly when that sample can still
      reach the reader. */
  lemma {:induction false} WatermarkCanMove(cfg: Config, before: seq<Step>)
    requires cfg.Valid()
    ensures var s := Run(START, cfg, before);
      var e := s.r.tracker.expected;
      s.r.tracker.initDone && e <= s.w.seqNo ==>
        && 1 <= e <= |s.written|
        && (Obtainable(s, WriteUnder(s.written, e)) <==>
            exists later :: Run(s, cfg, later).r.tracker.expected > e)
  {
    hide Inv, Run, Obtainable;
    StartInv(cfg);
    RunKeepsInv(START, cfg, before);
    var s := Run(START, cfg, before);
    var e := s.r.tracker.expected;
    if s.r.tracker.initDone && e <= s.w.seqNo {
      WatermarkInRange(s, cfg);
      AllIsWritten(s, cfg);
      var c := WriteUnder(s.written, e);
      if Obtainable(s, c) {
        var later := WatermarkMoves(s, cfg, c);
      } else {
        forall later ensures Run(s, cfg, later).r.tracker.expected == e { StrandedForever(s, cfg, later, c); }
      }
    }
  }

  lemma AllIsWritten(s: System, cfg: Config)
    requires Inv(s, cfg)
    ensures s.w.seqNo == |s.written|
  {
    hide ReaderInv, NetInv, PartsInv, IsTail;
  }

  /** Stranding does come about: a history of one, two writes, the first of them
      lost after its HEARTBEAT was heard. */
  lemma {:induction false} StrandingHappens(cfg: Config, a: Bytes, b: Bytes)
    requires cfg.Valid() && cfg.depth == 1 && 4 + |a| <= cfg.size
    ensures var lost := Change(1, a);
      var s := Run(START, cfg, [Write(a), Deliver(Heartbeat(1, 1)), Lose(Data(lost))] + [Write(b)]);
      && s.r.tracker.initDone && s.r.tracker.expected == 1 && s.w.seqNo == 2
      && s.written == [a, b] && !Obtainable(s, lost)
  {
    hide Obtainable, Carries, Messages;
    var c, d := Change(1, a), Change(2, b);
    var first := [Write(a), Deliver(Heartbeat(1, 1)), Lose(Data(c))];
    var s := FirstContact(cfg, a);
    var t := Next(s, cfg, Lose(Data(c)));
    forall m | m in t.net ensures SampleOf(m) == None { OnePiece(m, c, cfg.size); }
    RunThree(START, cfg, first);
    RunConcat(START, cfg, first, [Write(b)]);
    OneMore(t, cfg, Write(b), []);
    assert [Write(b)] + [] == [Write(b)];
    RunNothing(Next(t, cfg, Write(b)), cfg, []);
    SecondWrite(t, cfg, c, b);
  }

  lemma OnePiece(m: Msg, c: Change, size: nat)
    requires 0 < size && Wrapped(c) <= size
    ensures Carries(m, c, size) <==> m == Data(c)
  {}

  lemma {:induction false} SecondWrite(t: System, cfg: Config, c: Change, b: Bytes)
    requires cfg.Valid() && cfg.depth == 1 && t.w == WriterState(1, [c], false) && c.sn == 1
    requires t.r.parts == map[] && forall m :: m in t.net ==> SampleOf(m) == None
    ensures var u := Next(t, cfg, Write(b));
      u.r == t.r && u.w.seqNo == 2 && u.written == t.written + [b] && !Obtainable(u, c)
  {
    hide Carries, Messages;
    var d, u := Change(2, b), Next(t, cfg, Write(b));
    assert Stored([c], cfg.depth, d) == [d];
    forall m | m in u.net ensures SampleOf(m) != Some(c) {
      MessagesCarry(m, d, cfg.size);
      CarriesItself(m, d, cfg.size);
    }
    NothingInReach(u, c);
  }

  lemma CarriesItself(m: Msg, d: Change, size: nat)
    requires size > 0
    ensures Carries(m, d, size) ==> SampleOf(m) == Some(d)
  {}

  lemma NothingInReach(s: System, c: Change)
    requires (forall m :: m in s.net ==> SampleOf(m) != Some(c)) && s.r.parts == map[] && !Retained(s.w.history, c.sn)
    ensures !Obtainable(s, c)
  {
    forall size: nat | size > 0 ensures !InReach(s, c, size) {
      var none: nat := 0;
      assert none < Pieces(c, size) && SampleOf(Frag(c, size, none)) == Some(c);
    }
    assert SampleOf(Data(c)) == Some(c);
  }
}
