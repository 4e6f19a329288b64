module Replies {
  // What each step of the reliable protocol sends and takes in, exactly
  // (src/rtps/participant.cpp): said of the states before and after the step,
  // in terms of what was written and what the reader has taken in.

  import opened Octets
  import opened Bits
  import opened RecvTracking
  import opened History
  import opened Delivery
  import opened Recovery
  import opened Stranding
  import F = Fragments
  import R = Reassembly

  // ---- What the reader asks for -----------------------------------------

  // The reader lacks number k, which `last` says was written.
  predicate Lacks(r: ReaderState, last: nat, k: nat) {
    r.tracker.expected <= k <= last && k !in Got(r)
  }

  ghost predicate LacksSome(r: ReaderState, last: nat) { exists k :: Lacks(r, last, k) }

  // Bit i of the request speaks of number watermark + i.
  ghost predicate AsksExactly(r: ReaderState, last: nat, bitmap: nat) {
    bitmap < Pow2(32) && forall i: nat :: Bit(bitmap, i) <==> i < 32 && Lacks(r, last, r.tracker.expected + i)
  }

  /** The step from s to t sends an ACKNACK exactly when the reader lacks a number
      up to `last`; it names the watermark and exactly what is missing of the
      first 32 numbers from there. */
  ghost predicate AsksFor(s: System, t: System, last: nat) {
    if LacksSome(t.r, last) then
      exists bitmap :: AsksExactly(t.r, last, bitmap) && t.net == s.net + {AckNack(t.r.tracker.expected, bitmap)}
    else t.net == s.net
  }

  /** Sample sn was offered to the tracker: on first contact it anchors it, and
      later it is taken in exactly from the watermark to 8192 past it; the
      watermark is again the least number not taken in. */
  ghost predicate Offered(r: ReaderState, u: ReaderState, sn: nat) {
    && u.tracker.initDone
    && IsLeastMissing(Window(u.base, Got(u)), u.tracker.expected)
    && (if r.tracker.initDone then
          && u.base == r.base
          && Got(u) == Got(r) + if r.tracker.expected <= sn <= r.tracker.expected + 8192 then {sn} else {}
        else u.base == sn && Got(u) == {sn})
  }

  lemma {:induction false} AckIsExact(r: ReaderState, last: nat)
    requires Refines(r.tracker, Window(r.base, Got(r)))
    ensures LacksSome(r, last) ==>
      exists bitmap :: AsksExactly(r, last, bitmap) && AckFor(r.tracker, last) == [AckNack(r.tracker.expected, bitmap)]
    ensures !LacksSome(r, last) ==> |AckFor(r.tracker, last)| == 0
  {
    var w, q := Window(r.base, Got(r)), RequestFor(r.tracker, last);
    WatermarkIsLacked(r, last);
    hide Refines, RequestFor, Got;
    MissingIsExact(r.tracker, w, last, 0);
    if LacksSome(r, last) {
      forall i: nat ensures Bit(q.bitmap, i) <==> i < 32 && Lacks(r, last, r.tracker.expected + i) {
        MissingIsExact(r.tracker, w, last, i);
      }
      assert AsksExactly(r, last, q.bitmap);
    }
  }

  lemma WatermarkIsLacked(r: ReaderState, last: nat)
    requires Refines(r.tracker, Window(r.base, Got(r)))
    ensures LacksSome(r, last) <==> r.tracker.expected <= last
  {
    var e := r.tracker.expected;
    assert e !in Got(r);
    if e <= last { assert Lacks(r, last, e); }
  }

  lemma ElemsOfOne(m: Msg)
    ensures Elems([m]) == {m} && Elems([]) == {}
  {}

  lemma {:induction false} HeardAsks(s: System, u: ReaderState, last: nat)
    requires Refines(u.tracker, Window(u.base, Got(u)))
    ensures AsksFor(s, Heard(s, (u, AckFor(u.tracker, last))), last)
  {
    hide Refines, Got, AckFor, Elems, LacksSome, AsksExactly;
    AckIsExact(u, last);
    var t, ms := Heard(s, (u, AckFor(u.tracker, last))), AckFor(u.tracker, last);
    if LacksSome(u, last) {
      var bitmap :| AsksExactly(u, last, bitmap) && ms == [AckNack(u.tracker.expected, bitmap)];
      ElemsOfOne(AckNack(u.tracker.expected, bitmap));
      assert t.net == s.net + {AckNack(u.tracker.expected, bitmap)};
    } else {
      ElemsOfOne(Gap(0, 0));
      assert ms == [] && t.net == s.net;
    }
  }

  lemma {:induction false} DataIsOffered(s: System, c: Change)
    requires ReaderInv(s) && IsWrite(s.written, c)
    ensures var u := AfterData(s.r, c).0;
      && Offered(s.r, u, c.sn) && u.log == s.r.log + [c] && u.parts == s.r.parts
      && Refines(u.tracker, Window(u.base, Got(u))) && AfterData(s.r, c).1 == AckFor(u.tracker, c.sn)
  {
    var r, u := s.r, AfterData(s.r, c).0;
    OnDataKeepsReaderInv(s, c);
    hide AckFor;
    if r.tracker.initDone {
      var w := Window(r.base, Got(r));
      RecordRefines(r.tracker, w, c.sn);
      RefinesGot(u, Accept(w, r.tracker.expected, c.sn));
    } else {
      FirstRecordRefines(c.sn);
      RefinesGot(u, Window(c.sn, {c.sn}));
    }
  }

  // ---- What arrives -----------------------------------------------------

  /** A sample that arrives whole is dispatched, offered to the tracker, and
      everything missing below it is asked for. */
  lemma {:induction false} SampleIsAnswered(s: System, cfg: Config, c: Change)
    requires cfg.Valid() && Inv(s, cfg) && Data(c) in s.net
    ensures var t := Next(s, cfg, Deliver(Data(c)));
      && t.r.log == s.r.log + [c] && t.r.parts == s.r.parts && Offered(s.r, t.r, c.sn) && AsksFor(s, t, c.sn)
      && t == s.(r := t.r, net := t.net)
  {
    assert Honest(s.written, Data(c));
    hide ReaderInv, AfterData, AsksFor, Offered, Refines, Got, Honest;
    DataIsOffered(s, c);
    HeardAsks(s, AfterData(s.r, c).0, c.sn);
  }

  // Sample sn is being put together, and has been for at most five seconds.
  predicate InHand(s: System, sn: nat) {
    sn in s.r.parts && s.r.parts[sn].Held? && s.clock - s.r.parts[sn].created <= 5_000_000_000
  }

  // Fragment j of sample sn is there, in this size.
  predicate Holds(s: System, sn: nat, size: nat, j: nat) {
    InHand(s, sn) && s.r.parts[sn].fs == size && j in s.r.parts[sn].got
  }

  lemma HoldsWhatIsCurrent(s: System, sn: nat)
    ensures Current(s, sn).Held? <==> InHand(s, sn)
    ensures Current(s, sn).Held? ==> Current(s, sn) == s.r.parts[sn]
    ensures forall size: nat, j: nat :: Holds(s, sn, size, j) <==> HasCollected(Current(s, sn), size, j)
  {}

  /** Fragment i is the last one its sample lacks. */
  ghost predicate IsLastMissing(s: System, c: Change, size: nat, i: nat)
    requires size > 0
  {
    Wrapped(c) <= 0x100_0000 && forall j: nat :: j < Pieces(c, size) ==> j == i || Holds(s, c.sn, size, j)
  }

  /** A fragment counts unless its sample is larger than 16 MiB or is being put
      together from fragments of another size. */
  predicate Counts(s: System, c: Change, size: nat) {
    Wrapped(c) <= 0x100_0000 && (InHand(s, c.sn) ==> s.r.parts[c.sn].fs == size)
  }

  /** The last missing fragment acts as the sample itself; any other only adds to
      its reassembly. */
  lemma {:induction false} FragmentIsAnswered(s: System, cfg: Config, c: Change, size: nat, i: nat)
    requires cfg.Valid() && Inv(s, cfg) && Frag(c, size, i) in s.net
    ensures size > 0 && i < Pieces(c, size)
    ensures var t := Next(s, cfg, Deliver(Frag(c, size, i)));
      && t == s.(r := t.r, net := t.net)
      && (forall k: nat, fs: nat, j: nat :: k != c.sn ==> (Holds(t, k, fs, j) <==> Holds(s, k, fs, j)))
      && (if IsLastMissing(s, c, size, i) then
            && t.r.log == s.r.log + [c] && Offered(s.r, t.r, c.sn) && AsksFor(s, t, c.sn)
            && !InHand(t, c.sn)
          else
            && t.net == s.net && t.r == s.r.(parts := t.r.parts)
            && forall fs: nat, j: nat :: Holds(t, c.sn, fs, j) <==>
                 Holds(s, c.sn, fs, j) || (Counts(s, c, size) && fs == size && j == i))
  {
    hide *;
    FragmentActs(s, cfg, c, size, i);
    var t := Next(s, cfg, Deliver(Frag(c, size, i)));
    forall k: nat, fs: nat, j: nat ensures k != c.sn ==> (Holds(t, k, fs, j) <==> Holds(s, k, fs, j)) {
      HoldsWhatIsCurrent(s, k);
      HoldsWhatIsCurrent(t, k);
    }
    HoldsWhatIsCurrent(s, c.sn);
    HoldsWhatIsCurrent(t, c.sn);
  }

  lemma {:induction false} FragmentActs(s: System, cfg: Config, c: Change, size: nat, i: nat)
    requires cfg.Valid() && Inv(s, cfg) && Frag(c, size, i) in s.net
    ensures size > 0 && i < Pieces(c, size)
    ensures var t := Next(s, cfg, Deliver(Frag(c, size, i)));
      && t == s.(r := t.r, net := t.net)
      && (forall k: nat :: k != c.sn ==> Current(t, k) == Current(s, k))
      && (if IsLastMissing(s, c, size, i) then
            && t.r.log == s.r.log + [c] && Offered(s.r, t.r, c.sn) && AsksFor(s, t, c.sn)
            && !Current(t, c.sn).Held?
          else
            && t.net == s.net && t.r == s.r.(parts := t.r.parts)
            && forall fs: nat, j: nat :: HasCollected(Current(t, c.sn), fs, j) <==>
                 HasCollected(Current(s, c.sn), fs, j) || (Counts(s, c, size) && fs == size && j == i))
  {
    assert Honest(s.written, Frag(c, size, i));
    hide ReaderInv, AfterData, AsksFor, Offered, Refines, Got, Honest, R.Took, AfterRecord, IsLastMissing;
    var t := Next(s, cfg, Deliver(Frag(c, size, i)));
    if Wrapped(c) > F.MAX_REASSEMBLY {
      TooBigIsIgnored(s.r, c, size, i, s.clock);
      assert Elems([]) == {};
      TooBigIsNotLast(s, c, size, i);
    } else {
      TookLast(s, cfg, c, size, i);
      var live := Swept(s.r.parts, s.clock);
      SweptStanding(s.r.parts, c.sn, s.clock);
      AgedTwice(Wrapped(c), Standing(s.r.parts, c.sn), size, i, s.clock);
      var took := R.Took(Wrapped(c), Standing(live, c.sn), size, i, s.clock);
      forall k ensures k != c.sn ==> Current(t, k) == Current(s, k) {
        FragStanding(s.r, c, size, i, s.clock, k);
        AgedTwice(1, Standing(s.r.parts, k), 1, 0, s.clock);
      }
      FragStanding(s.r, c, size, i, s.clock, c.sn);
      if took.1 {
        var v := s.(r := s.r.(parts := Put(live, c.sn, took.0)));
        PartsAreApart(s, v.r.parts);
        DataIsOffered(v, c);
        SameOffer(s.r, v.r, AfterData(v.r, c).0, c.sn);
        HeardAsks(s, AfterData(v.r, c).0, c.sn);
      } else {
        assert Elems([]) == {};
      }
    }
  }

  lemma TooBigIsNotLast(s: System, c: Change, size: nat, i: nat)
    requires size > 0 && Wrapped(c) > F.MAX_REASSEMBLY
    ensures !IsLastMissing(s, c, size, i)
  {}

  lemma SameOffer(r: ReaderState, v: ReaderState, u: ReaderState, sn: nat)
    requires v == r.(parts := v.parts)
    ensures Offered(v, u, sn) ==> Offered(r, u, sn)
  {
    assert Got(v) == Got(r);
  }

  // What the assembler makes of the fragment, by what it has collected.
  lemma {:induction false} TookLast(s: System, cfg: Config, c: Change, size: nat, i: nat)
    requires Inv(s, cfg) && size > 0 && Wrapped(c) <= F.MAX_REASSEMBLY && i < Pieces(c, size)
    requires IsWrite(s.written, c) && size < Wrapped(c)
    ensures var took := R.Took(Wrapped(c), Current(s, c.sn), size, i, s.clock);
      && (took.1 <==> IsLastMissing(s, c, size, i))
      && (took.1 ==> took.0 == R.Idle)
      && (!took.1 ==> forall fs: nat, j: nat :: HasCollected(R.Aged(took.0, s.clock), fs, j) <==>
            HasCollected(Current(s, c.sn), fs, j) || (Counts(s, c, size) && fs == size && j == i))
  {
    HoldsWhatIsCurrent(s, c.sn);
    hide Holds, InHand;
    var p := Current(s, c.sn);
    var got := (if p.Held? then p.got else {}) + {i};
    assert Pieces(c, size) == 1 + F.Total(Wrapped(c) - size, size);
    assert F.Total(Wrapped(c) - size, size) >= 1;
    if p.Held? && p.fs != size {
      assert !HasCollected(p, size, if i == 0 then 1 else 0);
    } else if R.Complete(Wrapped(c), size, got) {
      forall j: nat | j < Pieces(c, size) ensures j == i || HasCollected(p, size, j) { assert j in got; }
    } else {
      var j :| 0 <= j < F.Total(Wrapped(c), size) && j !in got;
      assert j != i && !HasCollected(p, size, j);
    }
  }

  /** A HEARTBEAT anchors the reader on first contact and is answered with a
      request for everything missing up to its last number. */
  lemma {:induction false} HeartbeatIsAnswered(s: System, cfg: Config, first: nat, last: nat)
    requires cfg.Valid() && Inv(s, cfg) && Heartbeat(first, last) in s.net
    ensures var t := Next(s, cfg, Deliver(Heartbeat(first, last)));
      && t == s.(r := t.r, net := t.net) && t.r.log == s.r.log && t.r.parts == s.r.parts && AsksFor(s, t, last)
      && (if s.r.tracker.initDone then t.r == s.r
          else t.r.tracker.initDone && t.r.base == t.r.tracker.expected == first && Got(t.r) == {})
  {
    assert Honest(s.written, Heartbeat(first, last));
    OnHeartbeatKeepsReaderInv(s, first, last);
    var u := AfterHeartbeat(s.r, first, last).0;
    if !s.r.tracker.initDone {
      InitRefines(first);
      RefinesGot(u, Window(first, {}));
    }
    assert Refines(u.tracker, Window(u.base, Got(u)));
    hide Refines, Got, AckFor, AsksFor;
    HeardAsks(s, u, last);
  }

  // ---- What the writer sends --------------------------------------------

  // The HEARTBEAT after n writes: the last `depth` of them.
  predicate Announces(m: Msg, n: nat, depth: nat) {
    n > 0 && m == Heartbeat(if n > depth then n - depth + 1 else 1, n)
  }

  lemma {:induction false} AdvertisedIsTail(h: seq<Change>, depth: nat, written: seq<Bytes>, m: Msg)
    requires depth >= 1 && IsTail(h, depth, written)
    ensures m in Advertise(h) <==> Announces(m, |written|, depth)
  {
    if h != [] { assert h[0].sn == |written| - |h| + 1 && h[|h| - 1].sn == |written|; }
  }

  /** A write by an open writer goes out in all its messages under the next
      number, followed by a HEARTBEAT of what is now retained. */
  lemma {:induction false} WriteIsSent(s: System, cfg: Config, payload: Bytes, m: Msg)
    requires cfg.Valid() && Inv(s, cfg)
    ensures var t, n := Next(s, cfg, Write(payload)), |s.written| + 1;
      if s.w.closed || n >= SN_BOUND then t == s
      else
        && t.written == s.written + [payload] && t.r == s.r && t.clock == s.clock && !t.w.closed
        && (m in t.net <==> m in s.net || Carries(m, Change(n, payload), cfg.size) || Announces(m, n, cfg.depth))
  {
    hide Messages, Carries, Advertise, ReaderInv, NetInv, PartsInv, Announces;
    var c := Change(|s.written| + 1, payload);
    StoreKeepsTail(s.w.history, cfg.depth, s.written, payload);
    MessagesCarry(m, c, cfg.size);
    AdvertisedIsTail(Stored(s.w.history, cfg.depth, c), cfg.depth, s.written + [payload], m);
  }

  /** The periodic HEARTBEAT of an open writer. */
  lemma {:induction false} TickIsSent(s: System, cfg: Config, m: Msg)
    requires cfg.Valid() && Inv(s, cfg)
    ensures var t := Next(s, cfg, Tick);
      && t == s.(net := t.net)
      && (m in t.net <==> m in s.net || (!s.w.closed && Announces(m, |s.written|, cfg.depth)))
  {
    hide Advertise, ReaderInv, NetInv, PartsInv, Announces;
    AdvertisedIsTail(s.w.history, cfg.depth, s.written, m);
  }

  // A number that is still among the last `depth` writes.
  predicate Kept(n: nat, depth: nat, sn: nat) { 1 <= sn <= n < sn + depth }

  // m carries a retained write that the request asks for, in the default size.
  ghost predicate IsRequested(s: System, cfg: Config, base: nat, bitmap: nat, m: Msg) {
    exists k: nat :: k < 32 && RequestedAs(s, cfg, base, bitmap, m, k)
  }

  predicate RequestedAs(s: System, cfg: Config, base: nat, bitmap: nat, m: Msg, k: nat) {
    var sn := (base + k) % U64;
    Bit(bitmap, k) && Kept(|s.written|, cfg.depth, sn) && Carries(m, WriteUnder(s.written, sn), 1200)
  }

  // The GAP from the request's base up to what is no longer retained.
  predicate TellsGap(s: System, cfg: Config, base: nat, m: Msg) {
    var n := |s.written|;
    var first := if n > cfg.depth then n - cfg.depth + 1 else 1;
    n > 0 && base < first && m == Gap(base, if first - 1 > base + 31 then base + 31 else first - 1)
  }

  /** An open writer answers an ACKNACK with every message of every retained
      number whose bit is set, one GAP if the base is no longer retained, and
      nothing else. */
  lemma {:induction false} AckNackIsAnswered(s: System, cfg: Config, base: nat, bitmap: nat, m: Msg)
    requires cfg.Valid() && Inv(s, cfg) && AckNack(base, bitmap) in s.net
    ensures var t := Next(s, cfg, Deliver(AckNack(base, bitmap)));
      && t == s.(net := t.net)
      && (m in t.net <==>
            m in s.net || (!s.w.closed && (IsRequested(s, cfg, base, bitmap, m) || TellsGap(s, cfg, base, m))))
  {
    hide Bit, Find, Resent, GapFor, ReaderInv, NetInv, PartsInv, IsTail, TellsGap, IsRequested;
    var h := s.w.history;
    ResentIsRequested(h, base, bitmap, WINDOW, m);
    RequestedIsKept(s, cfg, base, bitmap, m);
    GapIsTold(s, cfg, base, m);
  }

  lemma {:induction false} RequestedIsKept(s: System, cfg: Config, base: nat, bitmap: nat, m: Msg)
    requires cfg.Valid() && WriterInv(s, cfg)
    ensures (exists k: nat :: k < WINDOW && Answers(s.w.history, base, bitmap, m, k)) <==>
            IsRequested(s, cfg, base, bitmap, m)
  {
    hide Answers, RequestedAs, WriterInv;
    forall k: nat ensures Answers(s.w.history, base, bitmap, m, k) <==> RequestedAs(s, cfg, base, bitmap, m, k) {
      OneIsKept(s, cfg, base, bitmap, m, k);
    }
  }

  lemma {:induction false} OneIsKept(s: System, cfg: Config, base: nat, bitmap: nat, m: Msg, k: nat)
    requires cfg.Valid() && WriterInv(s, cfg)
    ensures Answers(s.w.history, base, bitmap, m, k) <==> RequestedAs(s, cfg, base, bitmap, m, k)
  {
    hide Bit, Find, Carries;
    var h, sn := s.w.history, (base + k) % U64;
    GetIsExact(h, cfg.depth, s.written, sn);
    assert Retained(h, sn) <==> Kept(|s.written|, cfg.depth, sn);
  }

  lemma GapIsTold(s: System, cfg: Config, base: nat, m: Msg)
    requires cfg.Valid() && WriterInv(s, cfg)
    ensures m in GapFor(s.w.history, base) <==> TellsGap(s, cfg, base, m)
  {}
}
