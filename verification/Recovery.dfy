module Recovery {
  // When a reader recovers what it missed: bounded recovery by lossless rounds,
  // the reassemblies that stand in its way, and exactly when the watermark can
  // move again (src/rtps/participant.cpp, include/dds/rtps/fragment.hpp).

  import opened Octets
  import opened Bits
  import opened RecvTracking
  import opened History
  import opened Delivery
  import F = Fragments
  import R = Reassembly

  // ---- Messages on their way --------------------------------------------

  // m will arrive in the course of ds.
  predicate Coming(s: System, ds: seq<Step>, m: Msg) {
    m in s.net && Deliver(m) in ds && Lose(m) !in ds
  }

  lemma {:induction false} ComingOrHere(s: System, cfg: Config, ds: seq<Step>, m: Msg)
    requires cfg.Valid() && |ds| > 0 && Coming(s, ds, m)
    ensures (ds[0].Deliver? && ds[0].m == m) || Coming(Next(s, cfg, ds[0]), ds[1..], m)
  {
    hide Messages, Answer, AfterData, AfterFrag, AfterHeartbeat, Advertise, Stored;
    assert ds == [ds[0]] + ds[1..];
  }

  lemma {:induction false} RunConcat(s: System, cfg: Config, a: seq<Step>, b: seq<Step>)
    requires cfg.Valid()
    ensures Run(s, cfg, a + b) == Run(Run(s, cfg, a), cfg, b)
    decreases |a|
  {
    hide Next;
    if |a| == 0 {
      assert a + b == b;
    } else {
      assert (a + b)[1..] == a[1..] + b;
      RunConcat(Next(s, cfg, a[0]), cfg, a[1..], b);
    }
  }

  // ---- What a sample that arrives does ----------------------------------

  lemma {:induction false} DataIsTakenIn(s: System, c: Change)
    requires ReaderInv(s) && s.r.tracker.initDone
    ensures Got(s.r) <= Got(AfterData(s.r, c).0)
    ensures s.r.base <= c.sn <= s.r.tracker.expected + MAX_REORDER_AHEAD ==> c.sn in Got(AfterData(s.r, c).0)
  {
    hide Got;
    var w := Window(s.r.base, Got(s.r));
    RecordRefines(s.r.tracker, w, c.sn);
    RefinesGot(AfterData(s.r, c).0, Accept(w, s.r.tracker.expected, c.sn));
  }

  lemma {:induction false} FragGrowsGot(s: System, c: Change, size: nat, i: nat, now: int)
    requires ReaderInv(s) && s.r.tracker.initDone && size > 0
    ensures Got(s.r) <= Got(AfterFrag(s.r, c, size, i, now).0)
  {
    hide ReaderInv, AfterData, R.Took;
    if Wrapped(c) <= F.MAX_REASSEMBLY {
      var live := Swept(s.r.parts, now);
      var t := R.Took(Wrapped(c), Standing(live, c.sn), size, i, now);
      PartsAreApart(s, Put(live, c.sn, t.0));
      if t.1 { DataIsTakenIn(s.(r := s.r.(parts := Put(live, c.sn, t.0))), c); }
    }
  }

  lemma {:induction false} NextGrowsGot(s: System, cfg: Config, step: Step)
    requires cfg.Valid() && Inv(s, cfg) && s.r.tracker.initDone
    ensures Got(s.r) <= Got(Next(s, cfg, step).r)
  {
    hide Messages, Answer, AfterData, AfterFrag, ReaderInv, NetInv, PartsInv, WriterInv, Refines;
    if step.Deliver? && step.m in s.net {
      match step.m
      case Data(c) => DataIsTakenIn(s, c);
      case Frag(c, size, i) => if size > 0 { FragGrowsGot(s, c, size, i, s.clock); }
      case _ =>
    }
  }

  // What is taken in lies off the watermark.
  lemma WatermarkIsPast(s: System, cfg: Config, k: nat)
    requires Inv(s, cfg) && s.r.tracker.initDone && k in Got(s.r)
    ensures s.r.tracker.expected != k
  {
    hide NetInv, PartsInv, WriterInv;
  }

  // A sample that comes in one piece, not too far past the watermark, ends up
  // taken in whatever else happens.
  lemma {:induction false} DeliveredIsTakenIn(s: System, cfg: Config, ds: seq<Step>, c: Change)
    requires cfg.Valid() && Inv(s, cfg) && s.r.tracker.initDone
    requires s.r.base <= c.sn <= s.r.tracker.expected + MAX_REORDER_AHEAD
    requires c.sn in Got(s.r) || Coming(s, ds, Data(c))
    ensures c.sn in Got(Run(s, cfg, ds).r)
    decreases |ds|
  {
    hide Next, Inv, Got;
    if ds != [] {
      var t := Next(s, cfg, ds[0]);
      NextGrowsGot(s, cfg, ds[0]);
      NextKeepsInv(s, cfg, ds[0]);
      if c.sn !in Got(s.r) {
        ComingOrHere(s, cfg, ds, Data(c));
        DataStep(s, cfg, ds[0], c);
      }
      DeliveredIsTakenIn(t, cfg, ds[1..], c);
    }
  }

  lemma {:induction false} DataStep(s: System, cfg: Config, step: Step, c: Change)
    requires cfg.Valid() && Inv(s, cfg) && s.r.tracker.initDone && Data(c) in s.net
    requires s.r.base <= c.sn <= s.r.tracker.expected + MAX_REORDER_AHEAD
    ensures step.Deliver? && step.m == Data(c) ==> c.sn in Got(Next(s, cfg, step).r)
  {
    hide Got, AfterData, ReaderInv;
    DataIsTakenIn(s, c);
  }

  // ---- What a sample in fragments needs ---------------------------------

  /** From time `start` on, the reassembly of a sample is none, stale, or in
      this size. */
  predicate Ready(p: R.Progress, size: nat, start: int) {
    p.Held? ==> if p.created >= start then p.fs == size else start - p.created > F.STALE_AGE
  }

  function Collected(p: R.Progress, start: int): set<nat> {
    if p.Held? && p.created >= start then p.got else {}
  }

  predicate TimeOk(start: int, now: int) { start <= now <= start + F.STALE_AGE }

  function Passed(step: Step): nat { if step.Wait? then step.span else 0 }

  // The time that passes in the course of ds.
  function Elapsed(ds: seq<Step>): nat
    decreases |ds|
  {
    if |ds| == 0 then 0 else Passed(ds[0]) + Elapsed(ds[1..])
  }

  // The step brings sample sn in no other size.
  predicate StepCalm(step: Step, sn: nat, size: nat) {
    match step
    case Deliver(Frag(c, fs, _)) => c.sn == sn ==> fs == size
    case _ => true
  }

  /** From `clock` on, ds stays within the stale age of `start` and brings sample
      sn in no other size. */
  predicate Calm(clock: int, ds: seq<Step>, sn: nat, size: nat, start: int) {
    && start <= clock && clock + Elapsed(ds) <= start + F.STALE_AGE
    && forall k :: 0 <= k < |ds| ==> StepCalm(ds[k], sn, size)
  }

  lemma NextClock(s: System, cfg: Config, step: Step)
    requires cfg.Valid()
    ensures Next(s, cfg, step).clock == s.clock + Passed(step)
  {
    hide Messages, Answer, AfterData, AfterFrag, AfterHeartbeat, Advertise, Stored, Swept;
  }

  lemma {:induction false} RunClock(s: System, cfg: Config, ds: seq<Step>)
    requires cfg.Valid()
    ensures Run(s, cfg, ds).clock == s.clock + Elapsed(ds)
    decreases |ds|
  {
    hide Next;
    if |ds| > 0 {
      NextClock(s, cfg, ds[0]);
      RunClock(Next(s, cfg, ds[0]), cfg, ds[1..]);
    }
  }

  // What is left of a calm stretch is calm.
  lemma CalmLater(clock: int, ds: seq<Step>, sn: nat, size: nat, start: int)
    requires Calm(clock, ds, sn, size, start) && |ds| > 0
    ensures TimeOk(start, clock) && StepCalm(ds[0], sn, size)
    ensures Calm(clock + Passed(ds[0]), ds[1..], sn, size, start)
  {
    hide StepCalm;
    assert forall k :: 0 <= k < |ds| - 1 ==> ds[1..][k] == ds[k + 1];
  }

  lemma SweptStanding(parts: map<nat, R.Progress>, sn: nat, now: int)
    ensures Standing(Swept(parts, now), sn) == R.Aged(Standing(parts, sn), now)
  {}

  lemma AgedIsReady(p: R.Progress, size: nat, start: int, now: int)
    requires Ready(p, size, start) && TimeOk(start, now)
    ensures Ready(R.Aged(p, now), size, start) && Collected(R.Aged(p, now), start) == Collected(p, start)
  {}

  lemma TookIsReady(total: nat, p: R.Progress, size: nat, i: nat, start: int, now: int)
    requires size > 0 && Ready(p, size, start) && TimeOk(start, now)
    ensures var t := R.Took(total, p, size, i, now);
      && Ready(t.0, size, start) && (t.1 <==> R.Complete(total, size, Collected(p, start) + {i}))
      && (!t.1 ==> Collected(t.0, start) == Collected(p, start) + {i})
  {
    AgedIsReady(p, size, start, now);
  }

  // What a fragment does to the standing of its own sample and of any other.
  lemma {:induction false} FragStanding(r: ReaderState, c: Change, size: nat, i: nat, now: int, sn: nat)
    requires size > 0 && Wrapped(c) <= F.MAX_REASSEMBLY
    ensures var u, p := AfterFrag(r, c, size, i, now).0, R.Aged(Standing(r.parts, sn), now);
      Standing(u.parts, sn) == if c.sn == sn then R.Took(Wrapped(c), p, size, i, now).0 else p
  {
    hide AfterRecord, RequestFor;
    SweptStanding(r.parts, sn, now);
    SweptStanding(r.parts, c.sn, now);
    var t := R.Took(Wrapped(c), Standing(Swept(r.parts, now), c.sn), size, i, now).0;
    TookEnds(Wrapped(c), Standing(Swept(r.parts, now), c.sn), size, i, now);
    var live := Swept(r.parts, now);
    assert Standing(Put(live, c.sn, t), sn) == if c.sn == sn then t else Standing(live, sn);
  }

  lemma TookEnds(total: nat, p: R.Progress, size: nat, i: nat, now: int)
    requires size > 0
    ensures var t := R.Took(total, p, size, i, now).0; t.Held? || t == R.Idle
  {}

  // One calm step: the sample stays ready and loses no fragment, unless it is
  // taken in; a fragment of it that arrives counts.
  lemma {:induction false} CalmStep(s: System, cfg: Config, step: Step, c: Change, size: nat, start: int)
    requires cfg.Valid() && Inv(s, cfg) && s.r.tracker.initDone && IsWrite(s.written, c)
    requires size > 0 && Wrapped(c) <= F.MAX_REASSEMBLY
    requires s.r.base <= c.sn <= s.r.tracker.expected + MAX_REORDER_AHEAD
    requires Ready(Standing(s.r.parts, c.sn), size, start) && StepCalm(step, c.sn, size) && TimeOk(start, s.clock)
    ensures var p, q := Standing(s.r.parts, c.sn), Standing(Next(s, cfg, step).r.parts, c.sn);
      && Ready(q, size, start)
      && (c.sn in Got(Next(s, cfg, step).r) ||
          (&& Collected(p, start) <= Collected(q, start)
           && (step.Deliver? && step.m in s.net && step.m.Frag? && step.m.change == c && step.m.size == size ==>
                 step.m.index in Collected(q, start))))
  {
    hide Messages, Answer, AfterData, AfterFrag, ReaderInv, PartsInv, WriterInv, Honest, Got, R.Took, Ready,
         Collected, Advertise;
    match step
    case OtherFragment =>
      SweptStanding(s.r.parts, c.sn, s.clock);
      AgedIsReady(Standing(s.r.parts, c.sn), size, start, s.clock);
    case Deliver(m) =>
      if m in s.net {
        match m
        case Data(d) => DataLeavesParts(s.r, d);
        case Frag(d, fs, i) =>
          if fs > 0 { FragStep(s, cfg, d, fs, i, s.clock, c, size, start); }
        case _ =>
      }
    case _ =>
  }

  lemma DataLeavesParts(r: ReaderState, c: Change)
    ensures AfterData(r, c).0.parts == r.parts
  {}

  lemma {:induction false} FragStep(
    s: System, cfg: Config, d: Change, fs: nat, i: nat, now: int, c: Change, size: nat, start: int)
    requires cfg.Valid() && Inv(s, cfg) && s.r.tracker.initDone && IsWrite(s.written, c) && Frag(d, fs, i) in s.net
    requires size > 0 && fs > 0 && Wrapped(c) <= F.MAX_REASSEMBLY && TimeOk(start, now) && (d.sn == c.sn ==> fs == size)
    requires s.r.base <= c.sn <= s.r.tracker.expected + MAX_REORDER_AHEAD
    requires Ready(Standing(s.r.parts, c.sn), size, start)
    ensures var p, u := Standing(s.r.parts, c.sn), AfterFrag(s.r, d, fs, i, now).0;
      var q := Standing(u.parts, c.sn);
      && Ready(q, size, start)
      && (c.sn in Got(u) ||
          (Collected(p, start) <= Collected(q, start) && (d == c ==> i in Collected(q, start))))
  {
    hide AfterData, ReaderInv, PartsInv, WriterInv, Got, R.Took, Ready, Collected, AfterFrag, R.Complete;
    var p := Standing(s.r.parts, c.sn);
    assert Honest(s.written, Frag(d, fs, i));
    AgedIsReady(p, size, start, now);
    if Wrapped(d) <= F.MAX_REASSEMBLY {
      FragStanding(s.r, d, fs, i, now, c.sn);
      if d.sn == c.sn {
        TookIsReady(Wrapped(c), R.Aged(p, now), size, i, start, now);
        FragTakesIn(s, c, size, i, now);
      }
    } else {
      TooBigIsIgnored(s.r, d, fs, i, now);
    }
  }

  lemma TooBigIsIgnored(r: ReaderState, c: Change, size: nat, i: nat, now: int)
    requires size > 0 && Wrapped(c) > F.MAX_REASSEMBLY
    ensures AfterFrag(r, c, size, i, now) == (r, [])
  {}

  // A fragment that completes its sample brings it in.
  lemma {:induction false} FragTakesIn(s: System, c: Change, size: nat, i: nat, now: int)
    requires ReaderInv(s) && s.r.tracker.initDone && size > 0 && Wrapped(c) <= F.MAX_REASSEMBLY
    requires s.r.base <= c.sn <= s.r.tracker.expected + MAX_REORDER_AHEAD
    ensures R.Took(Wrapped(c), R.Aged(Standing(s.r.parts, c.sn), now), size, i, now).1 ==>
              c.sn in Got(AfterFrag(s.r, c, size, i, now).0)
  {
    hide ReaderInv, AfterData, R.Took;
    var live := Swept(s.r.parts, now);
    SweptStanding(s.r.parts, c.sn, now);
    var t := R.Took(Wrapped(c), Standing(live, c.sn), size, i, now);
    PartsAreApart(s, Put(live, c.sn, t.0));
    if t.1 { DataIsTakenIn(s.(r := s.r.(parts := Put(live, c.sn, t.0))), c); }
  }

  // Every fragment that is not there yet is coming.
  ghost predicate AllComing(s: System, ds: seq<Step>, c: Change, size: nat, start: int)
    requires size > 0
  {
    forall i: nat :: i < Pieces(c, size) ==>
      i in Collected(Standing(s.r.parts, c.sn), start) || Coming(s, ds, Frag(c, size, i))
  }

  // However the deliveries are ordered and whatever calm steps come between
  // them, a sample whose fragments all come ends up taken in.
  lemma {:induction false} SampleIsTakenIn(s: System, cfg: Config, ds: seq<Step>, c: Change, size: nat, start: int)
    requires cfg.Valid() && Inv(s, cfg) && s.r.tracker.initDone && IsWrite(s.written, c)
    requires size > 0 && Wrapped(c) <= F.MAX_REASSEMBLY
    requires s.r.base <= c.sn <= s.r.tracker.expected + MAX_REORDER_AHEAD
    requires Ready(Standing(s.r.parts, c.sn), size, start) && Calm(s.clock, ds, c.sn, size, start)
    requires c.sn in Got(s.r) || AllComing(s, ds, c, size, start)
    ensures c.sn in Got(Run(s, cfg, ds).r)
    decreases |ds|
  {
    hide Next, Inv, Got, Ready, Collected, Coming, Run, Calm;
    if ds == [] {
      RunNothing(s, cfg, ds);
      if c.sn !in Got(s.r) {
        NothingIsComing(s, ds, c, size);
        SomethingIsMissing(s, cfg, c, size, start);
      }
    } else {
      RunStep(s, cfg, ds);
      var t := Next(s, cfg, ds[0]);
      NextGrowsGot(s, cfg, ds[0]);
      NextKeepsInv(s, cfg, ds[0]);
      NextExtends(s, cfg, ds[0]);
      CalmLater(s.clock, ds, c.sn, size, start);
      NextClock(s, cfg, ds[0]);
      CalmStep(s, cfg, ds[0], c, size, start);
      if c.sn !in Got(t.r) {
        forall i: nat | i < Pieces(c, size)
          ensures i in Collected(Standing(t.r.parts, c.sn), start) || Coming(t, ds[1..], Frag(c, size, i))
        {
          if i !in Collected(Standing(s.r.parts, c.sn), start) {
            ComingOrHere(s, cfg, ds, Frag(c, size, i));
            IsInNet(s, ds, Frag(c, size, i));
          }
        }
      }
      SampleIsTakenIn(t, cfg, ds[1..], c, size, start);
    }
  }

  lemma RunNothing(s: System, cfg: Config, ds: seq<Step>)
    requires cfg.Valid() && |ds| == 0
    ensures Run(s, cfg, ds) == s
  {}

  lemma RunStep(s: System, cfg: Config, ds: seq<Step>)
    requires cfg.Valid() && |ds| > 0
    ensures Run(s, cfg, ds) == Run(Next(s, cfg, ds[0]), cfg, ds[1..])
  {}

  lemma IsInNet(s: System, ds: seq<Step>, m: Msg)
    requires Coming(s, ds, m)
    ensures m in s.net
  {}

  lemma NothingIsComing(s: System, ds: seq<Step>, c: Change, size: nat)
    requires |ds| == 0
    ensures forall i :: !Coming(s, ds, Frag(c, size, i))
  {}

  // A standing reassembly always lacks a fragment.
  lemma {:induction false} SomethingIsMissing(s: System, cfg: Config, c: Change, size: nat, start: int)
    requires Inv(s, cfg) && IsWrite(s.written, c) && size > 0 && Ready(Standing(s.r.parts, c.sn), size, start)
    ensures exists i: nat :: i < Pieces(c, size) && i !in Collected(Standing(s.r.parts, c.sn), start)
  {
    hide ReaderInv, NetInv, WriterInv;
    assert WriteUnder(s.written, c.sn) == c;
    StandingIsPart(s, c.sn);
    var p := Standing(s.r.parts, c.sn);
    if p.Held? && p.created >= start {
      assert !R.Complete(Wrapped(c), size, p.got);
      var i: nat :| i < F.Total(Wrapped(c), size) && i !in p.got;
      assert i < Pieces(c, size) && i !in Collected(p, start);
    } else {
      var none: nat := 0;
      assert none < Pieces(c, size) && none !in Collected(p, start);
    }
  }

  // ---- A retransmission, fragment by fragment ---------------------------

  // u is r after one or more arrivals of sample c as DATA.
  ghost predicate Applied(r: ReaderState, u: ReaderState, c: Change) {
    && u.tracker == AfterRecord(r.tracker, c.sn) && u.base == Anchor(r, c.sn).base
    && r.log < u.log && forall j :: |r.log| <= j < |u.log| ==> u.log[j] == c
  }

  predicate Untouched(r: ReaderState, u: ReaderState) {
    u.tracker == r.tracker && u.base == r.base && u.log == r.log
  }

  // `ds` brings fragments of c in the default size, with pauses that stay within
  // the stale age of `start`, and nothing else.
  predicate Resends(s: System, ds: seq<Step>, c: Change, start: int) {
    && start <= s.clock && s.clock + Elapsed(ds) <= start + F.STALE_AGE
    && forall k :: 0 <= k < |ds| ==> ds[k].Wait? || IsFragment(s, ds[k], c)
  }

  predicate IsFragment(s: System, step: Step, c: Change) {
    step.Deliver? && step.m.Frag? && step.m.change == c && step.m.size == DEFAULT && step.m in s.net
  }

  /** At `start` a reassembly is either stale or will not become so in time. */
  predicate Settled(p: R.Progress, start: int) {
    p.Held? && p.created < start ==> start - p.created > F.STALE_AGE
  }

  /** A live reassembly of the sample in another size. */
  predicate Blocked(p: R.Progress, start: int) {
    p.Held? && p.created >= start && p.fs != DEFAULT
  }

  lemma {:induction false} RecordTwice(t: Tracker, sn: nat)
    ensures AfterRecord(AfterRecord(t, sn), sn) == AfterRecord(t, sn)
  {
    var u := AfterInit(t, sn);
    if sn == u.expected { DrainFinds(sn + 1, u.ahead); }
  }

  lemma {:induction false} AppliedOnce(r: ReaderState, v: ReaderState, c: Change)
    requires Untouched(r, v) || Applied(r, v, c)
    ensures Applied(r, AfterData(v, c).0, c)
  {
    hide AfterRecord, RequestFor;
    RecordTwice(r.tracker, c.sn);
    if Applied(r, v, c) { RecordIsInit(r.tracker, c.sn); }
  }

  lemma RecordIsInit(t: Tracker, sn: nat)
    ensures AfterRecord(t, sn).initDone
  {}

  // Fragment i of c in the default size is the last one missing.
  predicate Completes(r: ReaderState, c: Change, i: nat, now: int) {
    && Wrapped(c) <= F.MAX_REASSEMBLY
    && R.Took(Wrapped(c), R.Aged(Standing(r.parts, c.sn), now), DEFAULT, i, now).1
  }

  // A fragment either leaves the tracker alone or acts as the whole sample.
  lemma {:induction false} FragApplies(r: ReaderState, v: ReaderState, c: Change, i: nat, now: int)
    requires Untouched(r, v) || Applied(r, v, c)
    ensures var u := AfterFrag(v, c, DEFAULT, i, now).0;
      && (Untouched(r, u) || Applied(r, u, c)) && (Applied(r, v, c) ==> Applied(r, u, c))
      && (Completes(v, c, i, now) ==> Applied(r, u, c))
  {
    hide AfterData, R.Took, AfterRecord;
    if Wrapped(c) <= F.MAX_REASSEMBLY {
      var live := Swept(v.parts, now);
      SweptStanding(v.parts, c.sn, now);
      var t := R.Took(Wrapped(c), Standing(live, c.sn), DEFAULT, i, now);
      var w := v.(parts := Put(live, c.sn, t.0));
      assert Untouched(r, v) ==> Untouched(r, w);
      assert Applied(r, v, c) ==> Applied(r, w, c);
      if t.1 { AppliedOnce(r, w, c); }
    }
  }

  lemma {:induction false} ResendStep(r: ReaderState, s: System, cfg: Config, step: Step, c: Change)
    requires cfg.Valid() && (step.Wait? || IsFragment(s, step, c)) && (Untouched(r, s.r) || Applied(r, s.r, c))
    ensures var t := Next(s, cfg, step);
      && t.r == (if step.Wait? then s.r else AfterFrag(s.r, c, DEFAULT, step.m.index, s.clock).0) && s.net <= t.net
      && (Untouched(r, t.r) || Applied(r, t.r, c)) && (Applied(r, s.r, c) ==> Applied(r, t.r, c))
  {
    hide AfterFrag, Applied, Untouched;
    if step.Deliver? { FragApplies(r, s.r, c, step.m.index, s.clock); }
  }

  lemma {:induction false} ResendStepCollects(r: ReaderState, s: System, cfg: Config, step: Step, c: Change, start: int)
    requires cfg.Valid() && IsFragment(s, step, c) && (Untouched(r, s.r) || Applied(r, s.r, c))
    requires Wrapped(c) <= F.MAX_REASSEMBLY
    requires Ready(Standing(s.r.parts, c.sn), DEFAULT, start) && TimeOk(start, s.clock)
    ensures var p, u := Standing(s.r.parts, c.sn), Next(s, cfg, step).r;
      var q := Standing(u.parts, c.sn);
      && Ready(q, DEFAULT, start)
      && (Applied(r, u, c) || Collected(q, start) == Collected(p, start) + {step.m.index})
  {
    hide AfterFrag, Applied, Untouched, Ready, Collected, R.Took, R.Complete;
    var p, i, now := Standing(s.r.parts, c.sn), step.m.index, s.clock;
    FragApplies(r, s.r, c, i, now);
    FragStanding(s.r, c, DEFAULT, i, now, c.sn);
    AgedIsReady(p, DEFAULT, start, now);
    TookIsReady(Wrapped(c), R.Aged(p, now), DEFAULT, i, start, now);
  }

  // What is left of a retransmission is one.
  lemma ResendsLater(s: System, t: System, ds: seq<Step>, c: Change, start: int)
    requires Resends(s, ds, c, start) && |ds| > 0 && s.net <= t.net && t.clock == s.clock + Passed(ds[0])
    ensures TimeOk(start, s.clock) && (ds[0].Wait? || IsFragment(s, ds[0], c)) && Resends(t, ds[1..], c, start)
  {
    forall k | 0 <= k < |ds| - 1 ensures ds[1..][k].Wait? || IsFragment(t, ds[1..][k], c) {
      assert ds[k + 1].Wait? || IsFragment(s, ds[k + 1], c);
    }
  }

  // Fragments pile up until the sample comes out.
  lemma {:induction false} ResendsCollect(r: ReaderState, s: System, cfg: Config, ds: seq<Step>, c: Change, start: int)
    requires cfg.Valid() && Resends(s, ds, c, start) && (Untouched(r, s.r) || Applied(r, s.r, c))
    requires Wrapped(c) <= F.MAX_REASSEMBLY && Ready(Standing(s.r.parts, c.sn), DEFAULT, start)
    ensures var p, u := Standing(s.r.parts, c.sn), Run(s, cfg, ds).r;
      var q := Standing(u.parts, c.sn);
      && Ready(q, DEFAULT, start)
      && (Applied(r, u, c)
          || (&& Untouched(r, u) && !Applied(r, s.r, c) && Collected(p, start) <= Collected(q, start)
              && forall k :: 0 <= k < |ds| && ds[k].Deliver? ==> ds[k].m.index in Collected(q, start)))
    decreases |ds|
  {
    hide Next, Applied, Untouched, Ready, Collected, AfterFrag, Run;
    if |ds| == 0 {
      RunNothing(s, cfg, ds);
    } else {
      RunStep(s, cfg, ds);
      var t := Next(s, cfg, ds[0]);
      assert ds[0].Wait? || IsFragment(s, ds[0], c);
      ResendStep(r, s, cfg, ds[0], c);
      NextClock(s, cfg, ds[0]);
      ResendsLater(s, t, ds, c, start);
      if ds[0].Deliver? { ResendStepCollects(r, s, cfg, ds[0], c, start); }
      ResendsCollect(r, t, cfg, ds[1..], c, start);
      assert forall k :: 1 <= k < |ds| ==> ds[k] == ds[1..][k - 1];
    }
  }

  // A reassembly in another size, or a sample too big, lets nothing through.
  lemma {:induction false} ResendsAreIgnored(s: System, cfg: Config, ds: seq<Step>, c: Change, start: int)
    requires cfg.Valid() && Resends(s, ds, c, start)
    requires Wrapped(c) > F.MAX_REASSEMBLY || Blocked(Standing(s.r.parts, c.sn), start)
    ensures Untouched(s.r, Run(s, cfg, ds).r)
    decreases |ds|
  {
    hide Next, AfterFrag, R.Took, Run;
    if |ds| == 0 {
      RunNothing(s, cfg, ds);
    } else {
      RunStep(s, cfg, ds);
      var t := Next(s, cfg, ds[0]);
      assert ds[0].Wait? || IsFragment(s, ds[0], c);
      ResendStep(s.r, s, cfg, ds[0], c);
      NextClock(s, cfg, ds[0]);
      ResendsLater(s, t, ds, c, start);
      if ds[0].Deliver? { IgnoredFragment(s.r, c, ds[0].m.index, s.clock, start); }
      ResendsAreIgnored(t, cfg, ds[1..], c, start);
    }
  }

  lemma {:induction false} IgnoredFragment(r: ReaderState, c: Change, i: nat, now: int, start: int)
    requires TimeOk(start, now)
    requires Wrapped(c) > F.MAX_REASSEMBLY || Blocked(Standing(r.parts, c.sn), start)
    ensures var u := AfterFrag(r, c, DEFAULT, i, now).0;
      Untouched(r, u) && (Wrapped(c) <= F.MAX_REASSEMBLY ==> Standing(u.parts, c.sn) == Standing(r.parts, c.sn))
  {
    if Wrapped(c) <= F.MAX_REASSEMBLY {
      SweptStanding(r.parts, c.sn, now);
      FragStanding(r, c, DEFAULT, i, now, c.sn);
    }
  }

  lemma AllCollected(s: System, ds: seq<Step>, c: Change, start: int, q: R.Progress)
    requires Resends(s, ds, c, start) && forall i: nat :: i < Pieces(c, DEFAULT) ==> Deliver(Frag(c, DEFAULT, i)) in ds
    requires forall k :: 0 <= k < |ds| && ds[k].Deliver? ==> ds[k].m.index in Collected(q, start)
    ensures forall i: nat :: i < Pieces(c, DEFAULT) ==> i in Collected(q, start)
  {
    hide Collected;
    forall i: nat | i < Pieces(c, DEFAULT) ensures i in Collected(q, start) {
      var k :| 0 <= k < |ds| && ds[k] == Deliver(Frag(c, DEFAULT, i));
    }
  }

  /** All fragments of a retransmission, in any order and repeated at will,
      within the stale age: they act as the sample in one piece exactly when it
      is no larger than 16 MiB and no live reassembly of it is in another size;
      otherwise they do nothing to tracker and log. */
  lemma {:induction false} RetransmissionRealises(s: System, cfg: Config, ds: seq<Step>, c: Change, start: int)
    requires cfg.Valid() && Inv(s, cfg) && IsWrite(s.written, c) && Wrapped(c) > DEFAULT
    requires Resends(s, ds, c, start) && forall i: nat :: i < Pieces(c, DEFAULT) ==> Deliver(Frag(c, DEFAULT, i)) in ds
    requires Settled(Standing(s.r.parts, c.sn), start)
    ensures var u := Run(s, cfg, ds).r;
      && (Applied(s.r, u, c) <==> Wrapped(c) <= F.MAX_REASSEMBLY && !Blocked(Standing(s.r.parts, c.sn), start))
      && (!Applied(s.r, u, c) ==> Untouched(s.r, u))
  {
    hide Next, Inv, Run, Collected, AfterRecord;
    var p, u := Standing(s.r.parts, c.sn), Run(s, cfg, ds);
    if Wrapped(c) <= F.MAX_REASSEMBLY && !Blocked(p, start) {
      ResendsCollect(s.r, s, cfg, ds, c, start);
      if !Applied(s.r, u.r, c) {
        RunKeepsInv(s, cfg, ds);
        RunExtends(s, cfg, ds);
        AllCollected(s, ds, c, start, Standing(u.r.parts, c.sn));
        SomethingIsMissing(u, cfg, c, DEFAULT, start);
        assert false;
      }
    } else {
      ResendsAreIgnored(s, cfg, ds, c, start);
    }
  }

  // ---- Rounds -----------------------------------------------------------

  function Last(h: seq<Change>): nat { if h == [] then 0 else h[|h| - 1].sn }

  // A HEARTBEAT is sent and arrives.
  function Announced(s: System, cfg: Config): System
    requires cfg.Valid()
  {
    var t := Next(s, cfg, Tick);
    var hb := Advertise(s.w.history);
    if hb == [] then t else Next(t, cfg, Deliver(hb[0]))
  }

  // The ACKNACK it provokes is answered.
  function Asked(s: System, cfg: Config): System
    requires cfg.Valid()
  {
    var t := Announced(s, cfg);
    var ack := AckFor(t.r.tracker, Last(t.w.history));
    if ack == [] then t else Next(t, cfg, Deliver(ack[0]))
  }

  // One round: HEARTBEAT, ACKNACK, and `ds`.
  function Round(s: System, cfg: Config, ds: seq<Step>): System
    requires cfg.Valid()
  {
    Run(Asked(s, cfg), cfg, ds)
  }

  // The writer is open and its history still holds what the reader misses next.
  predicate WatermarkHeld(s: System) {
    && s.w.history != [] && !s.w.closed
    && (s.r.tracker.initDone ==> s.w.history[0].sn <= s.r.tracker.expected)
  }

  function Watermark(s: System): nat
    requires WatermarkHeld(s)
  {
    if s.r.tracker.initDone then s.r.tracker.expected else s.w.history[0].sn
  }

  predicate InWindow(s: System, k: nat)
    requires WatermarkHeld(s)
  {
    Watermark(s) <= k < Watermark(s) + WINDOW && k <= s.w.seqNo
  }

  // `ds` delivers every message of the retransmissions that the reader lacks at
  // least once, in any order, with anything but a write or a close in between.
  ghost predicate Lossless(s: System, cfg: Config, ds: seq<Step>)
    requires cfg.Valid() && WatermarkHeld(s)
  {
    var v := Asked(s, cfg);
    && (forall st :: st in ds ==> !st.Write? && !st.Close?)
    && forall m, k: nat :: InWindow(s, k) && k !in Got(v.r) && Brings(m, s.written, k) ==> Coming(v, ds, m)
  }

  /** Nothing is in the way of sample c: it travels in one piece, or it can be
      reassembled and neither the standing reassembly nor a fragment that arrives
      is in another size. */
  ghost predicate Clear(v: System, ds: seq<Step>, c: Change) {
    Wrapped(c) <= DEFAULT
    || (Wrapped(c) <= F.MAX_REASSEMBLY
        && exists start ::
             Ready(Standing(v.r.parts, c.sn), DEFAULT, start) && Calm(v.clock, ds, c.sn, DEFAULT, start))
  }

  ghost predicate AllClear(s: System, cfg: Config, ds: seq<Step>)
    requires cfg.Valid() && WatermarkHeld(s)
  {
    var v := Asked(s, cfg);
    forall k: nat :: InWindow(s, k) && k !in Got(v.r) && 1 <= k <= |s.written| ==>
      Clear(v, ds, WriteUnder(s.written, k))
  }

  lemma {:induction false} AnnouncedKeepsUp(s: System, cfg: Config)
    requires cfg.Valid() && Inv(s, cfg) && WatermarkHeld(s)
    ensures var t := Announced(s, cfg);
      && Inv(t, cfg) && t.w == s.w && t.written == s.written && t.r.parts == s.r.parts && t.clock == s.clock
      && t.r.tracker.initDone && t.r.tracker.expected == Watermark(s)
      && Last(t.w.history) == s.w.seqNo == |s.written| && 1 <= Watermark(s) <= s.w.seqNo + 1
      && forall m :: m in AckFor(t.r.tracker, Last(t.w.history)) ==> m in t.net
  {
    hide ReaderInv, NetInv, PartsInv, RequestFor;
    var t := Next(s, cfg, Tick);
    NextKeepsInv(s, cfg, Tick);
    var hb := Advertise(s.w.history)[0];
    assert hb in Advertise(s.w.history);
    NextKeepsInv(t, cfg, Deliver(hb));
    WatermarkInRange(Next(t, cfg, Deliver(hb)), cfg);
  }

  lemma WatermarkInRange(s: System, cfg: Config)
    requires Inv(s, cfg) && s.r.tracker.initDone
    ensures 1 <= s.r.base <= s.r.tracker.expected <= |s.written| + 1
  {
    hide NetInv, PartsInv, WriterInv;
  }

  lemma {:induction false} AskedKeepsUp(s: System, cfg: Config)
    requires cfg.Valid() && Inv(s, cfg) && WatermarkHeld(s)
    ensures var v := Asked(s, cfg);
      && Inv(v, cfg) && v.w == s.w && v.written == s.written && v.r.parts == s.r.parts && v.clock == s.clock
      && v.r.tracker.initDone && v.r.tracker.expected == Watermark(s)
      && v.r == Announced(s, cfg).r
      && s.w.seqNo == |s.written| && 1 <= v.r.base <= Watermark(s) <= s.w.seqNo + 1
  {
    hide Inv, Announced, Answer, RequestFor;
    AnnouncedKeepsUp(s, cfg);
    var t := Announced(s, cfg);
    var ack := AckFor(t.r.tracker, Last(t.w.history));
    if ack != [] {
      assert ack[0] in ack;
      NextKeepsInv(t, cfg, Deliver(ack[0]));
    }
    WatermarkInRange(Asked(s, cfg), cfg);
  }

  // What the reader misses is asked for.
  lemma MissingIsRequested(r: ReaderState, last: nat, k: nat)
    requires Refines(r.tracker, Window(r.base, Got(r)))
    requires r.tracker.expected <= k <= last && k < r.tracker.expected + WINDOW
    ensures var ack := AckFor(r.tracker, last);
      && |ack| == 1 && ack[0].AckNack? && ack[0].base == r.tracker.expected
      && (k !in Got(r) ==> Bit(ack[0].bitmap, k - ack[0].base))
  {
    MissingIsExact(r.tracker, Window(r.base, Got(r)), last, k - r.tracker.expected);
  }

  // What is asked for and retained is sent again, all of it.
  lemma {:induction false} RequestIsResent(t: System, cfg: Config, q: Msg, k: nat, m: Msg)
    requires cfg.Valid() && Inv(t, cfg) && q.AckNack? && q in t.net && !t.w.closed
    requires q.base <= k < q.base + WINDOW && Retained(t.w.history, k) && Bit(q.bitmap, k - q.base)
    ensures 1 <= k <= |t.written| && (Brings(m, t.written, k) ==> m in Next(t, cfg, Deliver(q)).net)
  {
    hide ReaderInv, NetInv, PartsInv, Bit, Resent, Brings;
    GetIsExact(t.w.history, cfg.depth, t.written, k);
    RequestedIsResent(t.w.history, cfg.depth, t.written, q.base, q.bitmap, k - q.base, m);
  }

  // By the answer to the HEARTBEAT's ACKNACK, all that the reader misses in its
  // window is on its way.
  lemma {:induction false} AskedIsSent(s: System, cfg: Config, k: nat, m: Msg)
    requires cfg.Valid() && Inv(s, cfg) && WatermarkHeld(s) && InWindow(s, k)
    requires k !in Got(Asked(s, cfg).r) && Brings(m, s.written, k)
    ensures m in Asked(s, cfg).net
  {
    hide NetInv, PartsInv, RequestFor, Announced, Got, Answer, Brings, Bit;
    AnnouncedKeepsUp(s, cfg);
    AskedKeepsUp(s, cfg);
    var t := Announced(s, cfg);
    MissingIsRequested(t.r, Last(t.w.history), k);
    var q := AckFor(t.r.tracker, Last(t.w.history))[0];
    assert q in AckFor(t.r.tracker, Last(t.w.history));
    RequestIsResent(t, cfg, q, k, m);
  }

  // A number of the request window with nothing in its way is taken in by the
  // end of the round.
  lemma {:induction false} RoundTakesIn(s: System, cfg: Config, ds: seq<Step>, k: nat)
    requires cfg.Valid() && Inv(s, cfg) && WatermarkHeld(s) && Lossless(s, cfg, ds)
    requires InWindow(s, k) && 1 <= k <= |s.written|
    requires k in Got(Asked(s, cfg).r) || Clear(Asked(s, cfg), ds, WriteUnder(s.written, k))
    ensures k in Got(Round(s, cfg, ds).r)
  {
    hide Inv, Got, Run, Asked, Coming, Calm;
    AskedKeepsUp(s, cfg);
    var v, c := Asked(s, cfg), WriteUnder(s.written, k);
    if k in Got(v.r) || Wrapped(c) <= DEFAULT {
      assert k !in Got(v.r) ==> Brings(Data(c), s.written, k);
      DeliveredIsTakenIn(v, cfg, ds, c);
    } else {
      var start :| Ready(Standing(v.r.parts, c.sn), DEFAULT, start) && Calm(v.clock, ds, c.sn, DEFAULT, start);
      forall i: nat | i < Pieces(c, DEFAULT) ensures Coming(v, ds, Frag(c, DEFAULT, i)) {
        assert Brings(Frag(c, DEFAULT, i), s.written, k);
      }
      SampleIsTakenIn(v, cfg, ds, c, DEFAULT, start);
    }
  }

  lemma {:induction false} QuietRunKeepsHistory(s: System, cfg: Config, ds: seq<Step>)
    requires cfg.Valid() && forall st :: st in ds ==> !st.Write? && !st.Close?
    ensures var u := Run(s, cfg, ds); u.w == s.w && u.written == s.written
    decreases |ds|
  {
    hide Messages, Answer, AfterData, AfterFrag, AfterHeartbeat;
    if ds != [] {
      assert ds[0] in ds;
      QuietRunKeepsHistory(Next(s, cfg, ds[0]), cfg, ds[1..]);
    }
  }

  function Min(a: nat, b: nat): nat { if a < b then a else b }

  // A lossless round with nothing in the way moves the watermark over the whole
  // request window, or to the end of what was written.
  lemma {:induction false} RoundAdvances(s: System, cfg: Config, ds: seq<Step>)
    requires cfg.Valid() && Inv(s, cfg) && WatermarkHeld(s) && Lossless(s, cfg, ds) && AllClear(s, cfg, ds)
    ensures var u := Round(s, cfg, ds);
      && Inv(u, cfg) && WatermarkHeld(u) && u.r.tracker.initDone && u.w == s.w && u.written == s.written
      && Min(s.w.seqNo + 1, Watermark(s) + WINDOW) <= u.r.tracker.expected <= s.w.seqNo + 1
  {
    hide Inv, Run, Asked, Got, Lossless, AllClear;
    AskedKeepsUp(s, cfg);
    var v, u := Asked(s, cfg), Round(s, cfg, ds);
    RunKeepsInv(v, cfg, ds);
    assert forall st :: st in ds ==> !st.Write? && !st.Close? by { LosslessIsQuiet(s, cfg, ds); }
    QuietRunKeepsHistory(v, cfg, ds);
    WatermarkInRange(u, cfg);
    var e := u.r.tracker.expected;
    if e < Min(s.w.seqNo + 1, Watermark(s) + WINDOW) {
      ClearAt(s, cfg, ds, e);
      RoundTakesIn(s, cfg, ds, e);
      WatermarkIsPast(u, cfg, e);
      assert false;
    }
  }

  lemma ClearAt(s: System, cfg: Config, ds: seq<Step>, k: nat)
    requires cfg.Valid() && WatermarkHeld(s) && AllClear(s, cfg, ds) && InWindow(s, k) && 1 <= k <= |s.written|
    ensures k in Got(Asked(s, cfg).r) || Clear(Asked(s, cfg), ds, WriteUnder(s.written, k))
  {
    hide Asked, Clear, Got;
  }

  lemma LosslessIsQuiet(s: System, cfg: Config, ds: seq<Step>)
    requires cfg.Valid() && WatermarkHeld(s) && Lossless(s, cfg, ds)
    ensures forall st :: st in ds ==> !st.Write? && !st.Close?
  {
    hide Asked;
  }

  function Rounds(s: System, cfg: Config, rs: seq<seq<Step>>): System
    requires cfg.Valid()
    decreases |rs|
  {
    if rs == [] then s else Rounds(Round(s, cfg, rs[0]), cfg, rs[1..])
  }

  // Every round is lossless, and nothing is in the way.
  ghost predicate AllLossless(s: System, cfg: Config, rs: seq<seq<Step>>)
    requires cfg.Valid()
    decreases |rs|
  {
    rs != [] ==> && WatermarkHeld(s) && Lossless(s, cfg, rs[0]) && AllClear(s, cfg, rs[0])
                 && AllLossless(Round(s, cfg, rs[0]), cfg, rs[1..])
  }

  // From any reachable state, ceil(span / 32) such rounds recover all that was
  // written, and the samples below the watermark are in the log.
  lemma {:induction false} RecoveryIsBounded(s: System, cfg: Config, rs: seq<seq<Step>>)
    requires cfg.Valid() && Inv(s, cfg) && WatermarkHeld(s) && AllLossless(s, cfg, rs)
    requires |rs| >= 1 && |rs| * WINDOW >= s.w.seqNo + 1 - Watermark(s)
    ensures var u := Rounds(s, cfg, rs);
      && u.r.tracker.initDone && u.r.tracker.expected == s.w.seqNo + 1
      && forall k :: u.r.base <= k <= s.w.seqNo ==> Dispatched(u, k)
    decreases |rs|
  {
    hide Inv, Round, Lossless, AllClear;
    var t := Round(s, cfg, rs[0]);
    RoundAdvances(s, cfg, rs[0]);
    if |rs| > 1 {
      RecoveryIsBounded(t, cfg, rs[1..]);
    } else {
      assert rs[1..] == [];
      BelowIsDispatched(t, cfg);
    }
  }

  lemma BelowIsDispatched(s: System, cfg: Config)
    requires Inv(s, cfg) && s.r.tracker.initDone
    ensures forall k :: s.r.base <= k < s.r.tracker.expected ==> Dispatched(s, k)
  {
    hide NetInv, PartsInv, WriterInv, Dispatched;
    forall k | s.r.base <= k < s.r.tracker.expected ensures Dispatched(s, k) {
      assert Below(k, s.r.tracker.expected) && k in Got(s.r);
    }
  }

  // ---- Such rounds exist ------------------------------------------------

  // Everything that carries the n writes from k on.
  function WindowMessages(written: seq<Bytes>, k: nat, n: nat): seq<Msg>
    decreases n
  {
    if n == 0 then []
    else (if 1 <= k <= |written| then Messages(WriteUnder(written, k), DEFAULT) else [])
         + WindowMessages(written, k + 1, n - 1)
  }

  lemma {:induction false} WindowHasAll(written: seq<Bytes>, k: nat, n: nat, m: Msg, j: nat)
    requires k <= j < k + n && Brings(m, written, j)
    ensures m in WindowMessages(written, k, n)
    decreases n
  {
    hide Messages, Carries;
    if k == j { MessagesCarry(m, WriteUnder(written, k), DEFAULT); }
    else { WindowHasAll(written, k + 1, n - 1, m, j); }
  }

  lemma {:induction false} WindowHasOnly(written: seq<Bytes>, k: nat, n: nat, m: Msg)
    requires m in WindowMessages(written, k, n)
    ensures m.Frag? ==> m.size == DEFAULT
    decreases n
  {
    hide Messages;
    if 1 <= k <= |written| && m in Messages(WriteUnder(written, k), DEFAULT) {
      MessagesCarry(m, WriteUnder(written, k), DEFAULT);
    } else {
      WindowHasOnly(written, k + 1, n - 1, m);
    }
  }

  // A time from `now` on at which every reassembly held is stale.
  lemma {:induction false} LateEnough(parts: map<nat, R.Progress>, keys: set<nat>, now: int) returns (later: int)
    requires keys <= parts.Keys
    ensures now <= later && forall k :: k in keys && parts[k].Held? ==> later - parts[k].created > F.STALE_AGE
  {
    if keys == {} {
      later := now;
    } else {
      var k :| k in keys;
      later := LateEnough(parts, keys - {k}, now);
      if parts[k].Held? && later - parts[k].created <= F.STALE_AGE { later := parts[k].created + F.STALE_AGE + 1; }
    }
  }

  function AllOf(ms: seq<Msg>): seq<Step> {
    seq(|ms|, i requires 0 <= i < |ms| => Deliver(ms[i]))
  }

  lemma {:induction false} NothingElapses(ds: seq<Step>)
    requires forall k :: 0 <= k < |ds| ==> !ds[k].Wait?
    ensures Elapsed(ds) == 0
    decreases |ds|
  {
    if |ds| > 0 { NothingElapses(ds[1..]); }
  }

  lemma {:induction false} WaitingKeepsUp(s: System, cfg: Config, span: nat)
    requires cfg.Valid() && Inv(s, cfg) && WatermarkHeld(s)
    ensures var t := Next(s, cfg, Wait(span));
      && Inv(t, cfg) && WatermarkHeld(t) && Watermark(t) == Watermark(s) && t.w == s.w && t.written == s.written
      && t.r == s.r && t.clock == s.clock + span
  {
    hide Inv;
    NextKeepsInv(s, cfg, Wait(span));
  }

  // From every state whose watermark is held there is, after a pause, a lossless
  // round with nothing in the way, if its samples can be reassembled at all.
  lemma {:induction false} RoundExists(s: System, cfg: Config) returns (pause: nat, ds: seq<Step>)
    requires cfg.Valid() && Inv(s, cfg) && WatermarkHeld(s)
    requires forall k: nat :: InWindow(s, k) && 1 <= k <= |s.written| ==>
               Wrapped(WriteUnder(s.written, k)) <= F.MAX_REASSEMBLY
    ensures var t := Next(s, cfg, Wait(pause));
      Inv(t, cfg) && WatermarkHeld(t) && Lossless(t, cfg, ds) && AllClear(t, cfg, ds)
  {
    hide Inv, Asked, Got, Brings, WindowMessages, Next;
    var later := LateEnough(s.r.parts, s.r.parts.Keys, s.clock);
    pause := later - s.clock;
    WaitingKeepsUp(s, cfg, pause);
    var t := Next(s, cfg, Wait(pause));
    AskedKeepsUp(t, cfg);
    var v := Asked(t, cfg);
    var ms := WindowMessages(t.written, Watermark(t), WINDOW);
    ds := AllOf(ms);
    NothingElapses(ds);
    forall m, k: nat | InWindow(t, k) && k !in Got(v.r) && Brings(m, t.written, k) ensures Coming(v, ds, m) {
      AskedIsSent(t, cfg, k, m);
      WindowHasAll(t.written, Watermark(t), WINDOW, m, k);
      var i :| 0 <= i < |ms| && ms[i] == m;
      assert ds[i] == Deliver(m);
    }
    forall k: nat | InWindow(t, k) && 1 <= k <= |t.written| ensures Clear(v, ds, WriteUnder(t.written, k)) {
      forall i | 0 <= i < |ds| ensures StepCalm(ds[i], k, DEFAULT) {
        WindowHasOnly(t.written, Watermark(t), WINDOW, ms[i]);
      }
      assert Ready(Standing(v.r.parts, k), DEFAULT, later) && Calm(v.clock, ds, k, DEFAULT, later);
    }
  }
}
