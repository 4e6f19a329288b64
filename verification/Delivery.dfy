module Delivery {
  // The writer's answers to ACKNACK, and reliable delivery as steps of a writer
  // and a reader over a network that loses, duplicates and reorders
  // (src/rtps/participant.cpp).  Large samples travel as fragments.

  import opened Octets
  import opened Bits
  import opened RecvTracking
  import opened History
  import F = Fragments
  import R = Reassembly

  const DEFAULT: nat := F.DEFAULT_SIZE

  /** What one participant sends another about one writer.  Fragment i of a
      sample cut in pieces of `size` bytes counts from 0. */
  datatype Msg =
    | Data(change: Change)
    | Frag(change: Change, size: nat, index: nat)
    | Heartbeat(first: nat, last: nat)
    | AckNack(base: nat, bitmap: nat)
    | Gap(start: nat, end: nat)

  // ---- What carries a sample --------------------------------------------

  // Length of the encapsulated payload.
  function Wrapped(c: Change): nat { 4 + |c.payload| }

  function Pieces(c: Change, size: nat): nat
    requires size > 0
  {
    F.Total(Wrapped(c), size)
  }

  function Messages(c: Change, size: nat): seq<Msg>
    requires size > 0
  {
    if Wrapped(c) > size then seq(Pieces(c, size), i requires 0 <= i < Pieces(c, size) => Frag(c, size, i))
    else [Data(c)]
  }

  predicate Carries(m: Msg, c: Change, size: nat)
    requires size > 0
  {
    match m
    case Data(d) => d == c && Wrapped(c) <= size
    case Frag(d, fs, i) => d == c && fs == size && size < Wrapped(c) && i < Pieces(c, size)
    case _ => false
  }

  lemma MessagesCarry(m: Msg, c: Change, size: nat)
    requires size > 0
    ensures m in Messages(c, size) <==> Carries(m, c, size)
  {
    if Carries(m, c, size) { assert Messages(c, size)[if m.Frag? then m.index else 0] == m; }
  }

  function SampleOf(m: Msg): Option<Change> {
    match m case Data(c) => Some(c) case Frag(c, _, _) => Some(c) case _ => None
  }

  // ---- The writer's answer to an ACKNACK --------------------------------

  // Retransmissions for bits [0, n) of a request, always in the default
  // fragment size.
  function Resent(h: seq<Change>, base: nat, bitmap: nat, n: nat): seq<Msg> {
    if n == 0 then []
    else
      var more := if Bit(bitmap, n - 1) then Find(h, (base + n - 1) % U64) else None;
      Resent(h, base, bitmap, n - 1) + (if more.Some? then Messages(more.value, DEFAULT) else [])
  }

  // The GAP for what was already evicted.
  function GapFor(h: seq<Change>, base: nat): seq<Msg> {
    if h == [] || base >= h[0].sn then []
    else [Gap(base, if h[0].sn - 1 > base + 31 then base + 31 else h[0].sn - 1)]
  }

  function Answer(h: seq<Change>, base: nat, bitmap: nat): seq<Msg> {
    Resent(h, base, bitmap, WINDOW) + GapFor(h, base)
  }

  predicate InGap(ms: seq<Msg>, sn: nat) {
    exists i :: 0 <= i < |ms| && ms[i].Gap? && ms[i].start <= sn <= ms[i].end
  }

  // m answers bit k.
  predicate Answers(h: seq<Change>, base: nat, bitmap: nat, m: Msg, k: nat) {
    var c := Find(h, (base + k) % U64);
    Bit(bitmap, k) && c.Some? && Carries(m, c.value, DEFAULT)
  }

  lemma {:induction false} ResentIsRequested(h: seq<Change>, base: nat, bitmap: nat, n: nat, m: Msg)
    ensures m in Resent(h, base, bitmap, n) <==> exists k: nat :: k < n && Answers(h, base, bitmap, m, k)
  {
    hide Carries, Messages;
    if n > 0 {
      ResentIsRequested(h, base, bitmap, n - 1, m);
      var c := Find(h, (base + n - 1) % U64);
      if c.Some? { MessagesCarry(m, c.value, DEFAULT); }
      assert m in Resent(h, base, bitmap, n) <==>
             m in Resent(h, base, bitmap, n - 1) || Answers(h, base, bitmap, m, n - 1);
    }
  }

  predicate About(m: Msg, sn: nat) { SampleOf(m).Some? && SampleOf(m).value.sn == sn }

  // m is one of the messages that carry the write numbered sn.
  predicate Brings(m: Msg, written: seq<Bytes>, sn: nat) {
    1 <= sn <= |written| && Carries(m, WriteUnder(written, sn), DEFAULT)
  }

  /** m sends a retained write again. */
  ghost predicate IsResend(h: seq<Change>, written: seq<Bytes>, m: Msg) {
    SampleOf(m).Some? && Retained(h, SampleOf(m).value.sn) && Brings(m, written, SampleOf(m).value.sn)
  }

  // Of the numbers an ACKNACK asks for, up to the writer's last, the retained
  // ones come back whole, with the payload written under them, and the others
  // lie in the one GAP; the GAP covers no retained number.
  lemma {:induction false} AnswerPartitionsRequest(
    h: seq<Change>, depth: nat, written: seq<Bytes>, base: nat, bitmap: nat, k: nat)
    requires depth >= 1 && IsTail(h, depth, written)
    requires k < WINDOW && Bit(bitmap, k) && 1 <= base + k <= |written| < U64
    ensures var sn, ms := base + k, Answer(h, base, bitmap);
      && (forall m :: m in ms && About(m, sn) <==> Retained(h, sn) && Brings(m, written, sn))
      && (InGap(ms, sn) <==> !Retained(h, sn))
  {
    var sn, ms := base + k, Answer(h, base, bitmap);
    var rs, gs := Resent(h, base, bitmap, WINDOW), GapFor(h, base);
    assert ms == rs + gs && forall m :: m in ms <==> m in rs || m in gs;
    assert forall m :: m in gs ==> m.Gap?;
    forall m ensures m in rs ==> IsResend(h, written, m)
      ensures Retained(h, sn) && Brings(m, written, sn) ==> m in rs
    {
      if m in rs { ResentIsStored(h, depth, written, base, bitmap, m); }
      RequestedIsResent(h, depth, written, base, bitmap, k, m);
    }
    hide Bit, Brings, Answer, Resent, IsTail, Retained;
    assert forall i :: 0 <= i < |rs| ==> rs[i] in rs && ms[i] == rs[i];
    if gs != [] { assert ms[|rs|] == gs[0]; }
    GapIsBelow(h, depth, written, base, sn);
    assert InGap(ms, sn) <==> InGap(gs, sn);
  }

  lemma GapIsBelow(h: seq<Change>, depth: nat, written: seq<Bytes>, base: nat, sn: nat)
    requires depth >= 1 && IsTail(h, depth, written) && base <= sn < base + WINDOW && sn <= |written|
    ensures |written| > 0 ==> (InGap(GapFor(h, base), sn) <==> !Retained(h, sn))
  {
    var gs := GapFor(h, base);
    if gs != [] { assert gs[0].Gap?; }
  }

  lemma {:induction false} RequestedIsResent(
    h: seq<Change>, depth: nat, written: seq<Bytes>, base: nat, bitmap: nat, k: nat, m: Msg)
    requires depth >= 1 && IsTail(h, depth, written) && k < WINDOW && Bit(bitmap, k) && base + k < U64
    ensures Retained(h, base + k) && Brings(m, written, base + k) ==> m in Resent(h, base, bitmap, WINDOW)
  {
    hide Bit, Find, Resent;
    GetIsExact(h, depth, written, base + k);
    ResentIsRequested(h, base, bitmap, WINDOW, m);
    if Retained(h, base + k) && Brings(m, written, base + k) { assert Answers(h, base, bitmap, m, k); }
  }

  lemma {:induction false} ResentIsStored(
    h: seq<Change>, depth: nat, written: seq<Bytes>, base: nat, bitmap: nat, m: Msg)
    requires depth >= 1 && IsTail(h, depth, written) && m in Resent(h, base, bitmap, WINDOW)
    ensures IsResend(h, written, m)
  {
    hide Bit, Find, Resent;
    ResentIsRequested(h, base, bitmap, WINDOW, m);
    var j: nat :| j < WINDOW && Answers(h, base, bitmap, m, j);
    GetIsExact(h, depth, written, (base + j) % U64);
  }

  // Nothing but stored writes and one GAP below them is ever sent back.
  lemma {:induction false} AnswerIsHonest(
    h: seq<Change>, depth: nat, written: seq<Bytes>, base: nat, bitmap: nat, m: Msg)
    requires depth >= 1 && IsTail(h, depth, written)
    requires m in Answer(h, base, bitmap)
    ensures !m.Gap? ==> IsResend(h, written, m)
    ensures m.Gap? ==>
              && m.start == base <= m.end <= |written|
              && forall sn :: m.start <= sn <= m.end ==> !Retained(h, sn)
  {
    if m in Resent(h, base, bitmap, WINDOW) { ResentIsStored(h, depth, written, base, bitmap, m); }
  }

  // ---- Writer and reader as values --------------------------------------

  /** The history depth, and the fragment size of live writes: the default, or
      the bound of a TSN stream. */
  datatype Config = Config(depth: nat, size: nat)
  {
    predicate Valid() { depth >= 1 && 0 < size && 32 + size < 0x1_0000 }
  }

  datatype WriterState = WriterState(seqNo: nat, history: seq<Change>, closed: bool)

  function Advertise(h: seq<Change>): seq<Msg> {
    if h == [] then [] else [Heartbeat(h[0].sn, h[|h| - 1].sn)]
  }

  // A write that passes the checks: the state after it and what it sends.
  function Written(w: WriterState, cfg: Config, payload: Bytes): (WriterState, seq<Msg>)
    requires cfg.size > 0
  {
    var c := Change(w.seqNo + 1, payload);
    var h := Stored(w.history, cfg.depth, c);
    (w.(seqNo := c.sn, history := h), Messages(c, cfg.size) + Advertise(h))
  }

  // `base` remembers where the reader first anchored its watermark; `log` is
  // every sample dispatched, in order; `parts` are the reassemblies in progress.
  datatype ReaderState = ReaderState(tracker: Tracker, base: nat, log: seq<Change>, parts: map<nat, R.Progress>)

  function Anchor(r: ReaderState, sn: nat): ReaderState {
    if r.tracker.initDone then r else r.(base := sn)
  }

  function AckFor(t: Tracker, last: nat): seq<Msg> {
    var q := RequestFor(t, last);
    if q.needAck then [AckNack(q.base, q.bitmap)] else []
  }

  // A sample is recorded, gaps below it are requested, and it is dispatched
  // whatever `record` answered.
  function AfterData(r: ReaderState, c: Change): (ReaderState, seq<Msg>) {
    var t := AfterRecord(r.tracker, c.sn);
    (Anchor(r, c.sn).(tracker := t, log := r.log + [c]), AckFor(t, c.sn))
  }

  function AfterHeartbeat(r: ReaderState, first: nat, last: nat): (ReaderState, seq<Msg>) {
    var t := AfterInit(r.tracker, first);
    (Anchor(r, first).(tracker := t), AckFor(t, last))
  }

  function Standing(parts: map<nat, R.Progress>, sn: nat): R.Progress {
    if sn in parts then parts[sn] else R.Idle
  }

  function Swept(parts: map<nat, R.Progress>, now: int): map<nat, R.Progress> {
    map k | k in parts && R.Aged(parts[k], now).Held? :: parts[k]
  }

  function Put(parts: map<nat, R.Progress>, sn: nat, p: R.Progress): map<nat, R.Progress> {
    if p.Held? then parts[sn := p] else parts - {sn}
  }

  // A fragment goes to the assembler; a sample it completes is taken like DATA.
  function AfterFrag(r: ReaderState, c: Change, size: nat, index: nat, now: int): (ReaderState, seq<Msg>)
    requires size > 0
  {
    if Wrapped(c) > F.MAX_REASSEMBLY then (r, [])
    else
      var live := Swept(r.parts, now);
      var t := R.Took(Wrapped(c), Standing(live, c.sn), size, index, now);
      var u := r.(parts := Put(live, c.sn, t.0));
      if t.1 then AfterData(u, c) else (u, [])
  }

  // ---- The protocol -----------------------------------------------------

  /** `net` is what may still arrive: delivering a message leaves it there, so
      that it may arrive again, and in any order; losing it takes it away.
      `clock` is the reader's steady clock, in nanoseconds. */
  datatype System = System(w: WriterState, r: ReaderState, net: set<Msg>, written: seq<Bytes>, clock: int)

  datatype Step =
    | Write(payload: Bytes)
    | Tick                                       // the periodic HEARTBEAT
    | Close
    | Deliver(m: Msg)
    | Lose(m: Msg)
    | Wait(span: nat)
    | OtherFragment                              // of another writer
    | ForeignAckNack(base: nat, bitmap: nat)     // from any other reader

  const START := System(WriterState(0, [], false), ReaderState(FRESH, 0, [], map[]), {}, [], 0)

  function Elems(ms: seq<Msg>): set<Msg> { set m | m in ms }

  // A closed writer is no longer there to answer.
  function Answered(s: System, base: nat, bitmap: nat): System {
    if s.w.closed then s else s.(net := s.net + Elems(Answer(s.w.history, base, bitmap)))
  }

  function Heard(s: System, u: (ReaderState, seq<Msg>)): System {
    s.(r := u.0, net := s.net + Elems(u.1))
  }

  function Arrived(s: System, m: Msg): System {
    match m
    case Data(c) => Heard(s, AfterData(s.r, c))
    case Frag(c, size, i) => if size == 0 then s else Heard(s, AfterFrag(s.r, c, size, i, s.clock))
    case Heartbeat(first, last) => Heard(s, AfterHeartbeat(s.r, first, last))
    case AckNack(base, bitmap) => Answered(s, base, bitmap)
    case Gap(_, _) => s
  }

  function Next(s: System, cfg: Config, step: Step): System
    requires cfg.Valid()
  {
    match step
    case Write(payload) =>
      if s.w.closed || s.w.seqNo + 1 >= SN_BOUND then s
      else
        var (w, out) := Written(s.w, cfg, payload);
        s.(w := w, net := s.net + Elems(out), written := s.written + [payload])
    case Tick => if s.w.closed then s else s.(net := s.net + Elems(Advertise(s.w.history)))
    case Close => s.(w := s.w.(closed := true))
    case Deliver(m) => if m in s.net then Arrived(s, m) else s
    case Lose(m) => s.(net := s.net - {m})
    case Wait(span) => s.(clock := s.clock + span)
    case OtherFragment => s.(r := s.r.(parts := Swept(s.r.parts, s.clock)))
    case ForeignAckNack(base, bitmap) => Answered(s, base, bitmap)
  }

  function Run(s: System, cfg: Config, steps: seq<Step>): System
    requires cfg.Valid()
    decreases |steps|
  {
    if steps == [] then s else Run(Next(s, cfg, steps[0]), cfg, steps[1..])
  }

  // ---- Safety -----------------------------------------------------------

  ghost predicate IsWrite(written: seq<Bytes>, c: Change) {
    1 <= c.sn <= |written| && c.payload == written[c.sn - 1]
  }

  function WriteUnder(written: seq<Bytes>, sn: nat): Change
    requires 1 <= sn <= |written|
  {
    Change(sn, written[sn - 1])
  }

  // Sample sn was dispatched with the payload written under it.
  ghost predicate Dispatched(s: System, sn: nat) {
    1 <= sn <= |s.written| && WriteUnder(s.written, sn) in s.r.log
  }

  ghost predicate WriterInv(s: System, cfg: Config) {
    && s.w.seqNo == |s.written| < SN_BOUND
    && IsTail(s.w.history, cfg.depth, s.written)
  }

  /** A message says the truth: its sample was written, and cut by the splitter. */
  ghost predicate Honest(written: seq<Bytes>, m: Msg) {
    match m
    case Data(c) => IsWrite(written, c) && Wrapped(c) < 0xFFE0
    case Frag(c, size, i) =>
      IsWrite(written, c) && 0 < size < Wrapped(c) && 32 + size < 0x1_0000 && i < Pieces(c, size)
    case Heartbeat(first, last) => 1 <= first <= last <= |written|
    case Gap(start, end) => start <= end <= |written|
    case _ => true
  }

  ghost predicate NetInv(s: System) {
    forall m :: m in s.net ==> Honest(s.written, m)
  }

  predicate Below(k: nat, n: nat) { k < n }

  // The numbers the reader has taken in.
  function Got(r: ReaderState): set<nat> {
    (set k: nat | r.base <= k < r.tracker.expected && Below(k, r.tracker.expected)) + r.tracker.ahead
  }

  ghost predicate ReaderInv(s: System) {
    && (forall c :: c in s.r.log ==> IsWrite(s.written, c))
    && (!s.r.tracker.initDone ==> s.r.tracker == FRESH)
    && (s.r.tracker.initDone ==>
         && Refines(s.r.tracker, Window(s.r.base, Got(s.r)))
         && 1 <= s.r.base && s.r.tracker.expected <= |s.written| + 1
         && forall k :: k in Got(s.r) ==> Dispatched(s, k))
  }

  /** A reassembly in progress lacks some fragment of a written sample. */
  ghost predicate PartOk(written: seq<Bytes>, sn: nat, p: R.Progress) {
    && p.Held? && 1 <= sn <= |written| && 0 < p.fs
    && Wrapped(WriteUnder(written, sn)) <= F.MAX_REASSEMBLY
    && !R.Complete(Wrapped(WriteUnder(written, sn)), p.fs, p.got)
  }

  ghost predicate PartsInv(s: System) {
    forall sn :: sn in s.r.parts ==> PartOk(s.written, sn, s.r.parts[sn]) && s.r.parts[sn].created <= s.clock
  }

  ghost predicate Inv(s: System, cfg: Config) {
    WriterInv(s, cfg) && NetInv(s) && ReaderInv(s) && PartsInv(s)
  }

  // The reader's watermark, once set, only moves up.
  predicate Onward(r: ReaderState, u: ReaderState) {
    r.tracker.initDone ==>
      u.tracker.initDone && u.base == r.base && r.tracker.expected <= u.tracker.expected
  }

  lemma OnDataKeepsReaderInv(s: System, c: Change)
    requires ReaderInv(s) && IsWrite(s.written, c)
    ensures ReaderInv(s.(r := AfterData(s.r, c).0)) && Onward(s.r, AfterData(s.r, c).0)
  {
    var r, r' := s.r, AfterData(s.r, c).0;
    assert r'.log[|r.log|] == c;
    assert forall d :: d in r.log ==> d in r'.log;
    if r.tracker.initDone {
      var w := Window(r.base, Got(r));
      RecordRefines(r.tracker, w, c.sn);
      RefinesGot(r', Accept(w, r.tracker.expected, c.sn));
    } else {
      FirstRecordRefines(c.sn);
      RefinesGot(r', Window(c.sn, {c.sn}));
    }
    if r'.tracker.expected > r'.base {
      assert Below(r'.tracker.expected - 1, r'.tracker.expected) && r'.tracker.expected - 1 in Got(r');
    }
  }

  lemma RefinesGot(r: ReaderState, w: Window)
    requires Refines(r.tracker, w) && r.base == w.base
    ensures Got(r) == w.got
  {
    forall k ensures k in Got(r) <==> k in w.got {}
  }

  // The reassemblies play no part in what the tracker knows.
  lemma PartsAreApart(s: System, parts: map<nat, R.Progress>)
    requires ReaderInv(s)
    ensures ReaderInv(s.(r := s.r.(parts := parts)))
  {
    hide Refines;
    var t := s.(r := s.r.(parts := parts));
    assert Got(t.r) == Got(s.r);
    assert forall k :: Dispatched(s, k) ==> Dispatched(t, k);
  }

  lemma SweptKeepsParts(s: System)
    requires PartsInv(s)
    ensures PartsInv(s.(r := s.r.(parts := Swept(s.r.parts, s.clock))))
  {
    hide PartOk;
  }

  lemma TookIsPart(size: nat, p: R.Progress, fs: nat, i: nat, now: int)
    requires fs > 0 && (p.Held? ==> 0 < p.fs && !R.Complete(size, p.fs, p.got) && p.created <= now)
    ensures var t := R.Took(size, p, fs, i, now).0;
      t.Held? ==> 0 < t.fs && !R.Complete(size, t.fs, t.got) && t.created <= now
  {}

  lemma StandingIsPart(s: System, sn: nat)
    requires PartsInv(s) && 1 <= sn <= |s.written|
    ensures var p := Standing(s.r.parts, sn);
      p.Held? ==> 0 < p.fs && !R.Complete(Wrapped(WriteUnder(s.written, sn)), p.fs, p.got) && p.created <= s.clock
  {}

  lemma FragKeepsParts(s: System, c: Change, size: nat, i: nat)
    requires PartsInv(s) && size > 0 && IsWrite(s.written, c)
    ensures PartsInv(s.(r := AfterFrag(s.r, c, size, i, s.clock).0))
  {
    hide PartOk, AfterRecord;
    if Wrapped(c) <= F.MAX_REASSEMBLY {
      var t := s.(r := s.r.(parts := Swept(s.r.parts, s.clock)));
      SweptKeepsParts(s);
      PutKeepsParts(t, c, size, i);
    }
  }

  lemma PutKeepsParts(s: System, c: Change, size: nat, i: nat)
    requires PartsInv(s) && size > 0 && IsWrite(s.written, c) && Wrapped(c) <= F.MAX_REASSEMBLY
    ensures var t := R.Took(Wrapped(c), Standing(s.r.parts, c.sn), size, i, s.clock).0;
      PartsInv(s.(r := s.r.(parts := Put(s.r.parts, c.sn, t))))
  {
    hide R.Complete, R.Took;
    StandingIsPart(s, c.sn);
    assert WriteUnder(s.written, c.sn) == c;
    TookIsPart(Wrapped(c), Standing(s.r.parts, c.sn), size, i, s.clock);
  }

  lemma OnFragKeepsReaderInv(s: System, c: Change, size: nat, i: nat, now: int)
    requires ReaderInv(s) && size > 0 && IsWrite(s.written, c)
    ensures ReaderInv(s.(r := AfterFrag(s.r, c, size, i, now).0)) && Onward(s.r, AfterFrag(s.r, c, size, i, now).0)
  {
    hide ReaderInv, AfterData, R.Took;
    if Wrapped(c) <= F.MAX_REASSEMBLY {
      var live := Swept(s.r.parts, now);
      var t := R.Took(Wrapped(c), Standing(live, c.sn), size, i, now);
      var u := s.(r := s.r.(parts := Put(live, c.sn, t.0)));
      PartsAreApart(s, Put(live, c.sn, t.0));
      if t.1 { OnDataKeepsReaderInv(u, c); }
    }
  }

  // What is written later does not change what was dispatched.
  lemma MoreWritesKeepReaderInv(s: System, t: System)
    requires ReaderInv(s) && t.r == s.r && s.written <= t.written
    ensures ReaderInv(t)
  {
    hide Refines, Got;
    assert forall k :: Dispatched(s, k) ==> Dispatched(t, k);
  }

  lemma MoreWritesKeepParts(s: System, t: System)
    requires PartsInv(s) && t.r == s.r && s.written <= t.written && s.clock <= t.clock
    ensures PartsInv(t)
  {
    hide R.Complete;
    forall sn | sn in t.r.parts ensures PartOk(t.written, sn, t.r.parts[sn]) && t.r.parts[sn].created <= t.clock {
      assert PartOk(s.written, sn, s.r.parts[sn]);
    }
  }

  lemma MoreWritesStayHonest(a: seq<Bytes>, b: seq<Bytes>, m: Msg)
    requires Honest(a, m) && a <= b
    ensures Honest(b, m)
  {}

  lemma MessagesAreHonest(written: seq<Bytes>, c: Change, size: nat, m: Msg)
    requires IsWrite(written, c) && 0 < size && 32 + size < 0x1_0000 && Carries(m, c, size)
    ensures Honest(written, m)
  {}

  lemma {:induction false} WriteKeepsNetInv(s: System, cfg: Config, payload: Bytes)
    requires cfg.Valid() && WriterInv(s, cfg) && NetInv(s)
    ensures NetInv(Next(s, cfg, Write(payload)))
  {
    hide Honest, Carries, Messages;
    StoreKeepsTail(s.w.history, cfg.depth, s.written, payload);
    var t, c := Next(s, cfg, Write(payload)), Change(s.w.seqNo + 1, payload);
    forall m | m in t.net ensures Honest(t.written, m) {
      if m in s.net {
        MoreWritesStayHonest(s.written, t.written, m);
      } else if m in Messages(c, cfg.size) {
        MessagesCarry(m, c, cfg.size);
        MessagesAreHonest(t.written, c, cfg.size, m);
      } else {
        AdvertisedIsHonest(t, cfg, m);
      }
    }
  }

  lemma AdvertisedIsHonest(s: System, cfg: Config, m: Msg)
    requires WriterInv(s, cfg) && m in Advertise(s.w.history)
    ensures Honest(s.written, m)
  {}

  lemma {:induction false} WriteKeepsInv(s: System, cfg: Config, payload: Bytes)
    requires cfg.Valid() && Inv(s, cfg)
    ensures Inv(Next(s, cfg, Write(payload)), cfg)
  {
    hide ReaderInv, NetInv, PartsInv, Messages;
    StoreKeepsTail(s.w.history, cfg.depth, s.written, payload);
    WriteKeepsNetInv(s, cfg, payload);
    MoreWritesKeepReaderInv(s, Next(s, cfg, Write(payload)));
    MoreWritesKeepParts(s, Next(s, cfg, Write(payload)));
  }

  lemma OnHeartbeatKeepsReaderInv(s: System, first: nat, last: nat)
    requires ReaderInv(s) && 1 <= first <= |s.written|
    ensures ReaderInv(s.(r := AfterHeartbeat(s.r, first, last).0)) && Onward(s.r, AfterHeartbeat(s.r, first, last).0)
  {
    if !s.r.tracker.initDone {
      InitRefines(first);
      RefinesGot(AfterHeartbeat(s.r, first, last).0, Window(first, {}));
    }
  }

  // The writer, the reader and the network can be looked at apart.
  lemma {:induction false} PartsMakeInv(s: System, cfg: Config, r: ReaderState, net: set<Msg>)
    requires WriterInv(s, cfg) && ReaderInv(s.(r := r)) && PartsInv(s.(r := r))
    requires forall m :: m in net ==> Honest(s.written, m)
    ensures Inv(s.(r := r, net := net), cfg)
  {
    hide Refines, Got, Honest, PartOk;
    var t, u := s.(r := r), s.(r := r, net := net);
    assert forall k :: Dispatched(t, k) <==> Dispatched(u, k);
  }

  lemma AnswersAreHonest(s: System, cfg: Config, base: nat, bitmap: nat, m: Msg)
    requires cfg.Valid() && WriterInv(s, cfg) && m in Answer(s.w.history, base, bitmap)
    ensures Honest(s.written, m)
  {
    AnswerIsHonest(s.w.history, cfg.depth, s.written, base, bitmap, m);
    if !m.Gap? { MessagesAreHonest(s.written, SampleOf(m).value, DEFAULT, m); }
  }

  lemma {:induction false} AnsweredKeepsInv(s: System, cfg: Config, base: nat, bitmap: nat)
    requires cfg.Valid() && Inv(s, cfg)
    ensures Inv(Answered(s, base, bitmap), cfg)
  {
    hide ReaderInv, PartsInv, Honest, Answer;
    var net := s.net + Elems(Answer(s.w.history, base, bitmap));
    forall m | m in net ensures Honest(s.written, m) {
      if m !in s.net { AnswersAreHonest(s, cfg, base, bitmap, m); }
    }
    PartsMakeInv(s, cfg, s.r, net);
  }

  lemma {:induction false} HeardKeepsInv(s: System, cfg: Config, u: (ReaderState, seq<Msg>))
    requires Inv(s, cfg) && ReaderInv(s.(r := u.0)) && PartsInv(s.(r := u.0))
    requires forall m :: m in u.1 ==> m.AckNack?
    ensures Inv(Heard(s, u), cfg)
  {
    hide ReaderInv, PartsInv;
    PartsMakeInv(s, cfg, u.0, s.net + Elems(u.1));
  }

  lemma OnlyAcks(r: ReaderState, c: Change, size: nat, i: nat, now: int, first: nat, last: nat)
    requires size > 0
    ensures forall m :: m in AfterData(r, c).1 ==> m.AckNack?
    ensures forall m :: m in AfterFrag(r, c, size, i, now).1 ==> m.AckNack?
    ensures forall m :: m in AfterHeartbeat(r, first, last).1 ==> m.AckNack?
  {
    hide RequestFor, AfterRecord, AfterInit;
  }

  lemma DataKeepsParts(s: System, c: Change)
    requires PartsInv(s)
    ensures PartsInv(s.(r := AfterData(s.r, c).0))
  {
    hide PartOk, AfterRecord;
  }

  lemma HeartbeatKeepsParts(s: System, first: nat, last: nat)
    requires PartsInv(s)
    ensures PartsInv(s.(r := AfterHeartbeat(s.r, first, last).0))
  {
    hide PartOk;
  }

  lemma {:induction false} ArrivedKeepsInv(s: System, cfg: Config, m: Msg)
    requires cfg.Valid() && Inv(s, cfg) && m in s.net
    ensures Inv(Arrived(s, m), cfg) && Onward(s.r, Arrived(s, m).r)
  {
    hide ReaderInv, PartsInv, WriterInv, Answer, AfterData, AfterHeartbeat, AfterFrag;
    assert Honest(s.written, m);
    match m
    case Data(c) =>
      OnlyAcks(s.r, c, 1, 0, 0, 0, 0);
      OnDataKeepsReaderInv(s, c);
      DataKeepsParts(s, c);
      HeardKeepsInv(s, cfg, AfterData(s.r, c));
    case Frag(c, size, i) =>
      OnlyAcks(s.r, c, size, i, s.clock, 0, 0);
      OnFragKeepsReaderInv(s, c, size, i, s.clock);
      FragKeepsParts(s, c, size, i);
      HeardKeepsInv(s, cfg, AfterFrag(s.r, c, size, i, s.clock));
    case Heartbeat(first, last) =>
      OnlyAcks(s.r, Change(0, []), 1, 0, 0, first, last);
      OnHeartbeatKeepsReaderInv(s, first, last);
      HeartbeatKeepsParts(s, first, last);
      HeardKeepsInv(s, cfg, AfterHeartbeat(s.r, first, last));
    case AckNack(base, bitmap) => AnsweredKeepsInv(s, cfg, base, bitmap);
    case Gap(_, _) =>
  }

  lemma {:induction false} NextKeepsInv(s: System, cfg: Config, step: Step)
    requires cfg.Valid() && Inv(s, cfg)
    ensures Inv(Next(s, cfg, step), cfg) && Onward(s.r, Next(s, cfg, step).r)
  {
    hide Refines, Got, Arrived, Answer, Messages, PartOk, Honest;
    match step
    case Write(payload) => WriteKeepsInv(s, cfg, payload);
    case Tick => TickKeepsInv(s, cfg);
    case Close => PartsMakeInv(s.(w := s.w.(closed := true)), cfg, s.r, s.net);
    case ForeignAckNack(base, bitmap) => AnsweredKeepsInv(s, cfg, base, bitmap);
    case Deliver(m) => if m in s.net { ArrivedKeepsInv(s, cfg, m); }
    case Lose(m) => PartsMakeInv(s, cfg, s.r, s.net - {m});
    case Wait(span) =>
      var t := Next(s, cfg, step);
      MoreWritesKeepReaderInv(s, t);
      MoreWritesKeepParts(s, t);
      PartsMakeInv(t, cfg, t.r, t.net);
    case OtherFragment =>
      PartsAreApart(s, Swept(s.r.parts, s.clock));
      SweptKeepsParts(s);
      PartsMakeInv(s, cfg, s.r.(parts := Swept(s.r.parts, s.clock)), s.net);
  }

  lemma {:induction false} TickKeepsInv(s: System, cfg: Config)
    requires cfg.Valid() && Inv(s, cfg)
    ensures Inv(Next(s, cfg, Tick), cfg)
  {
    hide ReaderInv, PartsInv, Honest;
    var net := s.net + Elems(Advertise(s.w.history));
    forall m | m in net ensures Honest(s.written, m) {
      if m !in s.net { AdvertisedIsHonest(s, cfg, m); }
    }
    PartsMakeInv(s, cfg, s.r, net);
  }

  lemma {:induction false} RunKeepsInv(s: System, cfg: Config, steps: seq<Step>)
    requires cfg.Valid() && Inv(s, cfg)
    ensures Inv(Run(s, cfg, steps), cfg) && Onward(s.r, Run(s, cfg, steps).r)
    decreases |steps|
  {
    hide Next, Inv;
    if steps != [] {
      NextKeepsInv(s, cfg, steps[0]);
      RunKeepsInv(Next(s, cfg, steps[0]), cfg, steps[1..]);
    }
  }

  lemma StartInv(cfg: Config)
    ensures Inv(START, cfg)
  {}

  lemma {:induction false} NextExtends(s: System, cfg: Config, step: Step)
    requires cfg.Valid()
    ensures s.written <= Next(s, cfg, step).written && s.r.log <= Next(s, cfg, step).r.log
  {
    hide Messages, Answer, AfterRecord, RequestFor, R.Took;
  }

  lemma {:induction false} RunExtends(s: System, cfg: Config, steps: seq<Step>)
    requires cfg.Valid()
    ensures s.written <= Run(s, cfg, steps).written && s.r.log <= Run(s, cfg, steps).r.log
    decreases |steps|
  {
    hide Next;
    if steps != [] {
      NextExtends(s, cfg, steps[0]);
      RunExtends(Next(s, cfg, steps[0]), cfg, steps[1..]);
    }
  }

  // Safety, over every run with loss, duplication and reordering: what lies
  // between the reader's first contact and its watermark was dispatched with
  // the payload written under that number, nothing else ever is dispatched,
  // and the watermark stays within what was written.
  lemma {:induction false} EveryRunIsSafe(cfg: Config, steps: seq<Step>)
    requires cfg.Valid()
    ensures var s := Run(START, cfg, steps);
      && (forall c :: c in s.r.log ==> IsWrite(s.written, c))
      && (s.r.tracker.initDone ==>
           && 1 <= s.r.base <= s.r.tracker.expected <= s.w.seqNo + 1 == |s.written| + 1
           && forall k :: s.r.base <= k < s.r.tracker.expected ==> Dispatched(s, k))
  {
    hide Next;
    StartInv(cfg);
    RunKeepsInv(START, cfg, steps);
    var s := Run(START, cfg, steps);
    if s.r.tracker.initDone {
      forall k | s.r.base <= k < s.r.tracker.expected ensures Dispatched(s, k) {
        assert Below(k, s.r.tracker.expected) && k in Got(s.r);
      }
    }
  }

  // The watermark never moves back, the anchor never moves, and no write or
  // dispatched sample is ever revised.
  lemma {:induction false} WatermarkNeverRetreats(cfg: Config, steps: seq<Step>, later: seq<Step>)
    requires cfg.Valid()
    ensures var s := Run(START, cfg, steps); var u := Run(s, cfg, later);
      && s.written <= u.written && s.r.log <= u.r.log
      && (s.r.tracker.initDone ==>
           u.r.tracker.initDone && u.r.base == s.r.base && s.r.tracker.expected <= u.r.tracker.expected)
  {
    hide Next, Inv;
    StartInv(cfg);
    RunKeepsInv(START, cfg, steps);
    RunKeepsInv(Run(START, cfg, steps), cfg, later);
    RunExtends(Run(START, cfg, steps), cfg, later);
  }

  // ---- The objects behind the steps -------------------------------------

  // static_cast<int> of a size.
  function AsInt(n: nat): int {
    var low := n % 0x1_0000_0000;
    if low >= 0x8000_0000 then low - 0x1_0000_0000 else low
  }

  datatype WriteResult = WriteOk | ErrClosed | ErrTimeout | ErrPayloadTooLarge

  class Writer {
    const history: HistoryCache
    const reliable: bool
    const maxSampleSize: int
    const size: nat         // fragment_size()
    var seqNo: nat
    var closed: bool

    function Cfg(): Config { Config(history.depth, size) }

    function State(): WriterState reads this, history {
      WriterState(seqNo, history.changes, closed)
    }

    // `bound` is the TSN stream's payload bound, or not positive.
    constructor (depth: nat, reliable: bool, maxSampleSize: int, bound: int)
      ensures size == if bound > 0 then bound else DEFAULT
      ensures fresh(history) && State() == START.w && this.reliable == reliable
      ensures history.depth == (if depth > 0 then depth else 1) && this.maxSampleSize == maxSampleSize
    {
      this.reliable, this.maxSampleSize := reliable, maxSampleSize;
      size := if bound > 0 then bound else DEFAULT;
      seqNo, closed := 0, false;
      history := new HistoryCache(depth);
    }

    // `out` is what goes to every matched reader.
    method Write(payload: Bytes, ctxDone: bool) returns (err: WriteResult, out: seq<Msg>)
      requires seqNo + 1 < SN_BOUND && size > 0
      modifies this, history
      ensures err == (if old(closed) then ErrClosed
                      else if ctxDone then ErrTimeout
                      else if maxSampleSize > 0 && AsInt(|payload|) > maxSampleSize then ErrPayloadTooLarge
                      else WriteOk)
      ensures err == WriteOk ==> State() == Written(old(State()), Cfg(), payload).0
      ensures err == WriteOk ==>
                out == if reliable then Written(old(State()), Cfg(), payload).1
                       else Messages(Change(old(seqNo) + 1, payload), size)
      ensures err != WriteOk ==> State() == old(State()) && out == []
    {
      out := [];
      if closed { return ErrClosed, out; }
      if ctxDone { return ErrTimeout, out; }
      if maxSampleSize > 0 && AsInt(|payload|) > maxSampleSize { return ErrPayloadTooLarge, out; }
      seqNo := seqNo + 1;
      var c := Change(seqNo, payload);
      history.Store(c);
      out := Messages(c, size);
      if reliable {
        var hb := SendHeartbeat();
        out := out + hb;
      }
      err := WriteOk;
    }

    method SendHeartbeat() returns (out: seq<Msg>)
      ensures out == Advertise(history.changes)
    {
      out := [];
      var first, last := history.Span();
      if history.changes != [] {
        out := [Heartbeat(first, last)];
      }
    }

    method HandleAckNack(base: nat, bitmap: nat) returns (out: seq<Msg>)
      requires base < U64 && bitmap < Pow2(WINDOW)
      ensures out == if reliable then Answer(history.changes, base, bitmap) else []
    {
      out := [];
      if !reliable { return; }
      for bit := 0 to WINDOW
        invariant out == Resent(history.changes, base, bitmap, bit)
      {
        if Bit(bitmap, bit) {
          var change := history.Get((base + bit) % U64);
          if change.Some? {
            out := out + Messages(change.value, DEFAULT);
          }
        }
      }
      if history.changes == [] { return; }
      var first, _ := history.Span();
      if base >= first { return; }
      var gapEnd := first - 1;
      if gapEnd > base + 31 { gapEnd := base + 31; }
      out := out + [Gap(base, gapEnd)];
    }

    method Close()
      modifies this
      ensures State() == old(State()).(closed := true)
    {
      closed := true;
    }
  }

  class Reader {
    const tracker: RecvTracker
    ghost var base: nat
    var log: seq<Change>

    // The reassemblies are those of the participant's assembler.
    ghost function State(parts: map<nat, R.Progress>): ReaderState reads this, tracker {
      ReaderState(tracker.State(), base, log, parts)
    }

    constructor ()
      ensures fresh(tracker) && State(map[]) == START.r
    {
      base, log := 0, [];
      tracker := new RecvTracker();
    }

    method OnData(c: Change, ghost parts: map<nat, R.Progress>) returns (out: seq<Msg>)
      requires c.sn < SN_BOUND
      modifies this, tracker
      ensures (State(parts), out) == AfterData(old(State(parts)), c)
    {
      out := [];
      if !tracker.initDone { base := c.sn; }
      var _ := tracker.Record(c.sn);
      var q := tracker.Missing(c.sn);
      if q.needAck { out := [AckNack(q.base, q.bitmap)]; }
      log := log + [c];
    }

    method OnHeartbeat(first: nat, last: nat, ghost parts: map<nat, R.Progress>) returns (out: seq<Msg>)
      requires last < SN_BOUND
      modifies this, tracker
      ensures (State(parts), out) == AfterHeartbeat(old(State(parts)), first, last)
    {
      out := [];
      if !tracker.initDone { base := first; }
      tracker.InitExpected(first);
      var q := tracker.Missing(last);
      if q.needAck { out := [AckNack(q.base, q.bitmap)]; }
    }
  }
}
