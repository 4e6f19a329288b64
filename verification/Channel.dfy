/// The bounded channel (include/dds/channel.hpp) under every interleaving of
/// its critical sections.

module Channels {
  import opened Octets

  /** A condition variable: the threads asleep on it, and those woken that have
      not yet got the mutex back. */
  datatype Cv = Cv(asleep: set<nat>, woken: set<nat>)

  /** What the mutex protects, and a record of what happened: `accepted` are the
      items put in, in order; the oldest |fate| of them have left, to a receiver
      (true) or dropped as oldest (false); `received` went to receivers. */
  datatype State<T> = State(buf: seq<T>, capacity: nat, closed: bool, notEmpty: Cv, notFull: Cv,
                            held: map<nat, T>, timed: set<nat>,
                            accepted: seq<T>, fate: seq<bool>, received: seq<T>)

  /** One critical section, or a wake-up.  `pick` is the thread notify_one
      chooses; Wake is a spurious wake-up or a deadline; `late` says the
      deadline of a timed receiver has passed. */
  datatype Step<T> =
    | Push(t: nat, v: T, pick: nat)
    | ResumePush(t: nat, pick: nat)
    | TrySend(v: T, pick: nat)
    | SendDropOldest(v: T, pick: nat)
    | Recv(t: nat, isTimed: bool, pick: nat)
    | ResumeRecv(t: nat, late: bool, pick: nat)
    | TryRecv(pick: nat)
    | Wake(t: nat)
    | Close

  function Waiting(cv: Cv): set<nat> { cv.asleep + cv.woken }

  function Threads<T>(s: State<T>): set<nat> { Waiting(s.notEmpty) + Waiting(s.notFull) }

  // notify_one wakes some sleeper if there is one.
  predicate PickOk(cv: Cv, pick: nat) { cv.asleep != {} ==> pick in cv.asleep }

  function NotifyOne(cv: Cv, pick: nat): Cv {
    if pick in cv.asleep then Cv(cv.asleep - {pick}, cv.woken + {pick}) else cv
  }

  function NotifyAll(cv: Cv): Cv { Cv({}, cv.asleep + cv.woken) }

  function Sleep(cv: Cv, t: nat): Cv { Cv(cv.asleep + {t}, cv.woken - {t}) }

  function Leave(cv: Cv, t: nat): Cv { Cv(cv.asleep - {t}, cv.woken - {t}) }

  predicate Enabled<T>(s: State<T>, e: Step<T>) {
    match e
    case Push(t, _, pick) => t !in Threads(s) && PickOk(s.notEmpty, pick)
    case ResumePush(t, pick) => t in s.notFull.woken && PickOk(s.notEmpty, pick)
    case TrySend(_, pick) => PickOk(s.notEmpty, pick)
    case SendDropOldest(_, pick) => PickOk(s.notEmpty, pick)
    case Recv(t, _, pick) => t !in Threads(s) && PickOk(s.notFull, pick)
    case ResumeRecv(t, late, pick) => t in s.notEmpty.woken && (late ==> t in s.timed) && PickOk(s.notFull, pick)
    case TryRecv(pick) => PickOk(s.notFull, pick)
    case Wake(t) => t in s.notEmpty.asleep || t in s.notFull.asleep
    case Close => true
  }

  // buf_.push_back and notify_one
  function Put<T>(s: State<T>, v: T, pick: nat): State<T> {
    s.(buf := s.buf + [v], accepted := s.accepted + [v], notEmpty := NotifyOne(s.notEmpty, pick))
  }

  // buf_.pop_front to a receiver and notify_one
  function Take<T>(s: State<T>, pick: nat): State<T>
    requires |s.buf| > 0
  {
    s.(buf := s.buf[1..], fate := s.fate + [true], received := s.received + [s.buf[0]],
       notFull := NotifyOne(s.notFull, pick))
  }

  function Drop<T>(s: State<T>): State<T>
    requires |s.buf| > 0
  {
    s.(buf := s.buf[1..], fate := s.fate + [false])
  }

  function Next<T>(s: State<T>, e: Step<T>): State<T>
    requires s.capacity > 0 && (e.ResumePush? ==> e.t in s.held)
  {
    match e
    case Push(t, v, pick) =>
      if s.closed then s
      else if |s.buf| < s.capacity then Put(s, v, pick)
      else s.(notFull := Sleep(s.notFull, t), held := s.held[t := v])
    case ResumePush(t, pick) =>
      var gone := s.(notFull := Leave(s.notFull, t), held := s.held - {t});
      if s.closed then gone
      else if |s.buf| < s.capacity then Put(gone, s.held[t], pick)
      else s.(notFull := Sleep(s.notFull, t))
    case TrySend(v, pick) =>
      if s.closed || |s.buf| >= s.capacity then s else Put(s, v, pick)
    case SendDropOldest(v, pick) =>
      if s.closed then s
      else Put(if |s.buf| >= s.capacity then Drop(s) else s, v, pick)
    case Recv(t, isTimed, pick) =>
      if |s.buf| > 0 then Take(s, pick)
      else if s.closed then s
      else s.(notEmpty := Sleep(s.notEmpty, t), timed := if isTimed then s.timed + {t} else s.timed - {t})
    case ResumeRecv(t, late, pick) =>
      var gone := s.(notEmpty := Leave(s.notEmpty, t));
      if |s.buf| > 0 then Take(gone, pick)
      else if s.closed || late then gone
      else s.(notEmpty := Sleep(s.notEmpty, t))
    case TryRecv(pick) => if |s.buf| > 0 then Take(s, pick) else s
    case Wake(t) => s.(notEmpty := NotifyOne(s.notEmpty, t), notFull := NotifyOne(s.notFull, t))
    case Close => s.(closed := true, notEmpty := NotifyAll(s.notEmpty), notFull := NotifyAll(s.notFull))
  }

  function Start<T>(capacity: nat): State<T> {
    State([], capacity, false, Cv({}, {}), Cv({}, {}), map[], {}, [], [], [])
  }

  // ---- The invariant ----------------------------------------------------

  // The items that went to receivers.
  function Kept<T>(items: seq<T>, fate: seq<bool>): seq<T>
    requires |fate| == |items|
  {
    if |items| == 0 then []
    else
      var n := |items| - 1;
      Kept(items[..n], fate[..n]) + if fate[n] then [items[n]] else []
  }

  predicate CvOk(cv: Cv) { cv.asleep !! cv.woken }

  predicate WaitersOk<T>(s: State<T>) {
    && CvOk(s.notEmpty) && CvOk(s.notFull)
    && Waiting(s.notEmpty) !! Waiting(s.notFull)
    && s.held.Keys == Waiting(s.notFull)
  }

  // While someone sleeps, each of n chances has a woken thread coming for it.
  predicate Covered(cv: Cv, n: int) { cv.asleep != {} ==> n <= |cv.woken| }

  /** No wake-up is lost: on an open channel every item is covered by woken
      receivers and every free slot by woken senders; on a closed one nobody
      sleeps. */
  predicate NoLostWakeUp<T>(s: State<T>) {
    if s.closed then s.notEmpty.asleep == {} && s.notFull.asleep == {}
    else Covered(s.notEmpty, |s.buf|) && Covered(s.notFull, s.capacity - |s.buf|)
  }

  predicate InOrder<T(==)>(s: State<T>) {
    && |s.fate| <= |s.accepted|
    && s.buf == s.accepted[|s.fate|..]
    && s.received == Kept(s.accepted[..|s.fate|], s.fate)
  }

  predicate Inv<T(==)>(s: State<T>) {
    0 < s.capacity && |s.buf| <= s.capacity && WaitersOk(s) && NoLostWakeUp(s) && InOrder(s)
  }

  lemma NotifyOneWakes(cv: Cv, pick: nat)
    requires CvOk(cv) && PickOk(cv, pick)
    ensures var r := NotifyOne(cv, pick);
      && CvOk(r) && Waiting(r) == Waiting(cv) && r.asleep <= cv.asleep
      && |r.woken| == |cv.woken| + if cv.asleep != {} then 1 else 0
  {}

  lemma WakeKeeps(cv: Cv, t: nat)
    requires CvOk(cv)
    ensures var r := NotifyOne(cv, t);
      CvOk(r) && Waiting(r) == Waiting(cv) && r.asleep <= cv.asleep && |r.woken| >= |cv.woken|
  {}

  lemma LeaveCounts(cv: Cv, t: nat)
    requires CvOk(cv) && t in cv.woken
    ensures var r := Leave(cv, t);
      CvOk(r) && Waiting(r) == Waiting(cv) - {t} && r.asleep == cv.asleep && |r.woken| == |cv.woken| - 1
  {
    assert cv.woken == (cv.woken - {t}) + {t};
  }

  // ---- Order ------------------------------------------------------------

  lemma PutKeepsOrder<T>(s: State<T>, v: T, pick: nat)
    requires InOrder(s)
    ensures InOrder(Put(s, v, pick))
  {
    var r := Put(s, v, pick);
    assert r.accepted[|s.fate|..] == s.accepted[|s.fate|..] + [v];
    assert r.accepted[..|s.fate|] == s.accepted[..|s.fate|];
  }

  lemma KeptOneMore<T>(items: seq<T>, fate: seq<bool>, n: nat)
    requires n < |items| && |fate| == n + 1
    ensures Kept(items[..n + 1], fate) == Kept(items[..n], fate[..n]) + if fate[n] then [items[n]] else []
  {
    assert items[..n + 1][..n] == items[..n];
  }

  lemma TakeKeepsOrder<T>(s: State<T>, pick: nat)
    requires InOrder(s) && |s.buf| > 0
    ensures InOrder(Take(s, pick)) && InOrder(Drop(s))
  {
    var n := |s.fate|;
    assert s.buf[0] == s.accepted[n];
    assert s.buf[1..] == s.accepted[n + 1..];
    KeptOneMore(s.accepted, s.fate + [true], n);
    KeptOneMore(s.accepted, s.fate + [false], n);
    assert (s.fate + [true])[..n] == s.fate && (s.fate + [false])[..n] == s.fate;
    assert s.received + [] == s.received;
  }

  lemma NextKeepsOrder<T>(s: State<T>, e: Step<T>)
    requires s.capacity > 0 && (e.ResumePush? ==> e.t in s.held) && InOrder(s)
    ensures InOrder(Next(s, e))
  {
    hide InOrder, Put, Take, Drop;
    match e
    case Push(t, v, pick) => PutKeepsOrder(s, v, pick); SameOrder(s, Next(s, e));
    case ResumePush(t, pick) =>
      var gone := s.(notFull := Leave(s.notFull, t), held := s.held - {t});
      SameOrder(s, gone);
      PutKeepsOrder(gone, s.held[t], pick);
      SameOrder(s, Next(s, e));
    case TrySend(v, pick) => PutKeepsOrder(s, v, pick);
    case SendDropOldest(v, pick) =>
      PutKeepsOrder(s, v, pick);
      if |s.buf| > 0 {
        TakeKeepsOrder(s, pick);
        PutKeepsOrder(Drop(s), v, pick);
      }
    case Recv(t, isTimed, pick) =>
      if |s.buf| > 0 { TakeKeepsOrder(s, pick); }
      SameOrder(s, Next(s, e));
    case ResumeRecv(t, late, pick) =>
      var gone := s.(notEmpty := Leave(s.notEmpty, t));
      SameOrder(s, gone);
      if |s.buf| > 0 { TakeKeepsOrder(gone, pick); }
      SameOrder(s, Next(s, e));
    case TryRecv(pick) =>
      if |s.buf| > 0 { TakeKeepsOrder(s, pick); }
    case Wake(t) => SameOrder(s, Next(s, e));
    case Close => SameOrder(s, Next(s, e));
  }

  // The order is about four of the fields only.
  lemma SameOrder<T>(s: State<T>, r: State<T>)
    requires InOrder(s)
    ensures r.buf == s.buf && r.accepted == s.accepted && r.fate == s.fate && r.received == s.received ==> InOrder(r)
  {}

  // ---- Waiting threads --------------------------------------------------

  lemma NextKeepsWaiters<T>(s: State<T>, e: Step<T>)
    requires s.capacity > 0 && Enabled(s, e) && WaitersOk(s) && |s.buf| <= s.capacity
    ensures (e.ResumePush? ==> e.t in s.held) && WaitersOk(Next(s, e)) && |Next(s, e).buf| <= s.capacity
  {}

  lemma NotifyCovers(cv: Cv, pick: nat, n: int)
    requires CvOk(cv) && PickOk(cv, pick) && Covered(cv, n)
    ensures Covered(NotifyOne(cv, pick), n + 1) && Covered(NotifyOne(cv, pick), n)
  {
    NotifyOneWakes(cv, pick);
  }

  lemma LeaveCovers(cv: Cv, t: nat, n: int)
    requires CvOk(cv) && t in cv.woken && Covered(cv, n)
    ensures CvOk(Leave(cv, t)) && Covered(Leave(cv, t), n - 1)
    ensures cv.asleep == {} ==> Leave(cv, t).asleep == {}
  {
    LeaveCounts(cv, t);
  }

  lemma PutCovers<T>(s: State<T>, v: T, pick: nat)
    requires CvOk(s.notEmpty) && PickOk(s.notEmpty, pick) && !s.closed
    requires Covered(s.notEmpty, |s.buf|) && Covered(s.notFull, s.capacity - |s.buf| - 1)
    ensures NoLostWakeUp(Put(s, v, pick))
  {
    NotifyCovers(s.notEmpty, pick, |s.buf|);
  }

  lemma TakeCovers<T>(s: State<T>, pick: nat)
    requires CvOk(s.notFull) && PickOk(s.notFull, pick) && |s.buf| > 0
    requires if s.closed then s.notEmpty.asleep == {} && s.notFull.asleep == {}
             else Covered(s.notEmpty, |s.buf| - 1) && Covered(s.notFull, s.capacity - |s.buf|)
    ensures NoLostWakeUp(Take(s, pick))
  {
    NotifyCovers(s.notFull, pick, s.capacity - |s.buf|);
  }

  lemma FewerAreCovered(cv: Cv, n: int)
    requires Covered(cv, n)
    ensures Covered(cv, n - 1)
  {}

  lemma NobodyComes(cv: Cv, n: int)
    ensures n <= 0 ==> Covered(cv, n)
  {}

  predicate Sound<T>(s: State<T>) { s.capacity > 0 && WaitersOk(s) && |s.buf| <= s.capacity && NoLostWakeUp(s) }

  lemma CvsAreOk<T>(s: State<T>)
    requires WaitersOk(s)
    ensures CvOk(s.notEmpty) && CvOk(s.notFull)
  {}

  lemma SendLosesNoWakeUp<T>(s: State<T>, e: Step<T>)
    requires Sound(s) && Enabled(s, e) && (e.Push? || e.TrySend? || e.SendDropOldest?)
    ensures NoLostWakeUp(Next(s, e))
  {
    hide Covered, Put, NotifyOne;
    var slots := s.capacity - |s.buf|;
    if !s.closed {
      FewerAreCovered(s.notFull, slots);
      if e.SendDropOldest? {
        FewerAreCovered(s.notEmpty, |s.buf|);
        PutCovers(if slots > 0 then s else Drop(s), e.v, e.pick);
      } else if slots > 0 {
        PutCovers(s, e.v, e.pick);
      } else if e.Push? {
        NobodyComes(Sleep(s.notFull, e.t), slots);
      }
    }
  }

  lemma ResumePushLosesNoWakeUp<T>(s: State<T>, e: Step<T>)
    requires Sound(s) && Enabled(s, e) && e.ResumePush?
    ensures e.t in s.held && NoLostWakeUp(Next(s, e))
  {
    hide Covered, Put, NotifyOne, Leave;
    var t, slots := e.t, s.capacity - |s.buf|;
    assert t in Waiting(s.notFull);
    if s.closed {
      LeaveAwake(s.notFull, t);
    } else if slots > 0 {
      LeaveCovers(s.notFull, t, slots);
      PutCovers(s.(notFull := Leave(s.notFull, t), held := s.held - {t}), s.held[t], e.pick);
    } else {
      NobodyComes(Sleep(s.notFull, t), slots);
    }
  }

  lemma RecvLosesNoWakeUp<T>(s: State<T>, e: Step<T>)
    requires Sound(s) && Enabled(s, e) && (e.Recv? || e.TryRecv?)
    ensures NoLostWakeUp(Next(s, e))
  {
    hide Covered, Take, NotifyOne, WaitersOk, CvOk, Threads, PickOk;
    CvsAreOk(s);
    if |s.buf| > 0 {
      if !s.closed { FewerAreCovered(s.notEmpty, |s.buf|); }
      TakeCovers(s, e.pick);
    } else if e.Recv? {
      NobodyComes(Sleep(s.notEmpty, e.t), |s.buf|);
    }
  }

  lemma ResumeRecvLosesNoWakeUp<T>(s: State<T>, e: Step<T>)
    requires Sound(s) && Enabled(s, e) && e.ResumeRecv?
    ensures NoLostWakeUp(Next(s, e))
  {
    hide Covered, Take, NotifyOne, Leave, WaitersOk, CvOk, PickOk;
    CvsAreOk(s);
    var t := e.t;
    if s.closed { LeaveAwake(s.notEmpty, t); } else { LeaveCovers(s.notEmpty, t, |s.buf|); }
    if |s.buf| > 0 {
      TakeCovers(s.(notEmpty := Leave(s.notEmpty, t)), e.pick);
    } else {
      NobodyComes(Leave(s.notEmpty, t), |s.buf|);
      NobodyComes(Sleep(s.notEmpty, t), |s.buf|);
    }
  }

  lemma NextLosesNoWakeUp<T>(s: State<T>, e: Step<T>)
    requires Sound(s) && Enabled(s, e)
    ensures (e.ResumePush? ==> e.t in s.held) && NoLostWakeUp(Next(s, e))
  {
    hide Covered, Put, Take, Drop, Leave, Sleep;
    match e
    case ResumePush(_, _) => ResumePushLosesNoWakeUp(s, e);
    case Recv(_, _, _) => RecvLosesNoWakeUp(s, e);
    case TryRecv(_) => RecvLosesNoWakeUp(s, e);
    case ResumeRecv(_, _, _) => ResumeRecvLosesNoWakeUp(s, e);
    case Wake(t) =>
      WakeCovers(s.notEmpty, t, |s.buf|);
      WakeCovers(s.notFull, t, s.capacity - |s.buf|);
    case Close =>
    case _ => SendLosesNoWakeUp(s, e);
  }

  lemma LeaveAwake(cv: Cv, t: nat)
    requires CvOk(cv) && cv.asleep == {}
    ensures CvOk(Leave(cv, t)) && Leave(cv, t).asleep == {}
  {}

  lemma WakeCovers(cv: Cv, t: nat, n: int)
    requires CvOk(cv)
    ensures Covered(cv, n) ==> Covered(NotifyOne(cv, t), n)
    ensures cv.asleep == {} ==> NotifyOne(cv, t).asleep == {}
  {
    WakeKeeps(cv, t);
  }

  // ---- Every run --------------------------------------------------------

  lemma NextKeepsInv<T>(s: State<T>, e: Step<T>)
    requires Inv(s) && Enabled(s, e)
    ensures (e.ResumePush? ==> e.t in s.held) && Inv(Next(s, e))
  {
    hide InOrder, NoLostWakeUp, WaitersOk, Enabled;
    NextKeepsWaiters(s, e);
    NextLosesNoWakeUp(s, e);
    NextKeepsOrder(s, e);
    NextKeepsCapacity(s, e);
  }

  lemma NextKeepsCapacity<T>(s: State<T>, e: Step<T>)
    requires s.capacity > 0 && (e.ResumePush? ==> e.t in s.held)
    ensures Next(s, e).capacity == s.capacity
  {}

  // The state after a run in which every step is possible when it is taken.
  function Run<T(==)>(s: State<T>, es: seq<Step<T>>): Option<State<T>>
    requires Inv(s)
    decreases |es|
  {
    if |es| == 0 then Some(s)
    else if !Enabled(s, es[0]) then None
    else
      NextKeepsInv(s, es[0]);
      Run(Next(s, es[0]), es[1..])
  }

  lemma {:induction false} RunKeepsInv<T>(s: State<T>, es: seq<Step<T>>)
    requires Inv(s)
    ensures Run(s, es).Some? ==> Inv(Run(s, es).value)
    decreases |es|
  {
    hide Next, WaitersOk, NoLostWakeUp, InOrder;
    if |es| > 0 && Enabled(s, es[0]) {
      NextKeepsInv(s, es[0]);
      RunKeepsInv(Next(s, es[0]), es[1..]);
    }
  }

  lemma StartInv<T>(capacity: nat)
    requires capacity > 0
    ensures Inv<T>(Start(capacity))
  {}

  // A run of a new channel.
  function RunFrom<T(==)>(capacity: nat, es: seq<Step<T>>): Option<State<T>>
    requires capacity > 0
  {
    StartInv<T>(capacity);
    Run(Start(capacity), es)
  }

  // What left to receivers and what is still held, as if it were all received.
  function AllKept(n: nat): seq<bool> { seq(n, _ => true) }

  lemma {:induction false} KeptAll<T>(items: seq<T>, fate: seq<bool>, more: seq<T>)
    requires |fate| == |items|
    ensures Kept(items + more, fate + AllKept(|more|)) == Kept(items, fate) + more
    decreases |more|
  {
    var n := |more|;
    if n == 0 {
      assert items + more == items && fate + AllKept(n) == fate;
    } else {
      var a, f := items + more, fate + AllKept(n);
      assert a[..|a| - 1] == items + more[..n - 1];
      assert f[..|f| - 1] == fate + AllKept(n - 1);
      KeptAll(items, fate, more[..n - 1]);
      assert more == more[..n - 1] + [more[n - 1]];
    }
  }

  /** Whatever threads do in whatever order: the buffer never exceeds its
      capacity; what receivers got and what is still buffered is what was
      accepted, in order, less the items dropped as oldest; and when no woken
      thread is left to run, receivers sleep only on an empty and senders only on
      a full channel that is open, so never both. */
  lemma EveryRunIsSafe<T>(capacity: nat, es: seq<Step<T>>)
    requires capacity > 0 && RunFrom(capacity, es).Some?
    ensures var s := RunFrom(capacity, es).value;
      && |s.buf| <= s.capacity && NoLostWakeUp(s)
      && |s.fate| + |s.buf| == |s.accepted|
      && s.received + s.buf == Kept(s.accepted, s.fate + AllKept(|s.buf|))
      && (s.notEmpty.woken == {} && s.notEmpty.asleep != {} ==> s.buf == [] && !s.closed)
      && (s.notFull.woken == {} && s.notFull.asleep != {} ==> |s.buf| == s.capacity && !s.closed)
      && (s.notEmpty.woken == {} && s.notFull.woken == {} ==> s.notEmpty.asleep == {} || s.notFull.asleep == {})
  {
    hide Next, Enabled;
    StartInv<T>(capacity);
    RunKeepsInv(Start(capacity), es);
    SafeState(RunFrom(capacity, es).value);
  }

  lemma SafeState<T>(s: State<T>)
    requires Inv(s)
    ensures |s.fate| + |s.buf| == |s.accepted|
    ensures s.received + s.buf == Kept(s.accepted, s.fate + AllKept(|s.buf|))
    ensures s.notEmpty.woken == {} && s.notEmpty.asleep != {} ==> |s.buf| == 0 && !s.closed
    ensures s.notFull.woken == {} && s.notFull.asleep != {} ==> |s.buf| == s.capacity && !s.closed
  {
    hide Kept;
    KeptAll(s.accepted[..|s.fate|], s.fate, s.buf);
    assert s.accepted == s.accepted[..|s.fate|] + s.buf;
  }

  // ---- What comes in, what goes out, what is dropped --------------------

  // A send_drop_oldest that meets a full open channel.
  predicate MeetsFull<T>(s: State<T>, e: Step<T>) {
    e.SendDropOldest? && !s.closed && |s.buf| == s.capacity
  }

  // A receiver that finds an item.
  predicate FindsItem<T>(s: State<T>, e: Step<T>) {
    (e.Recv? || e.ResumeRecv? || e.TryRecv?) && |s.buf| > 0
  }

  // The item a sender brings; a sender that slept brings the one it slept with.
  function Brought<T>(s: State<T>, e: Step<T>): seq<T>
    requires e.ResumePush? ==> e.t in s.held
  {
    match e
    case Push(_, v, _) => [v]
    case TrySend(v, _) => [v]
    case SendDropOldest(v, _) => [v]
    case ResumePush(t, _) => [s.held[t]]
    case _ => []
  }

  /** On an open channel an item comes in exactly when there is room or its
      sender makes room; one leaves to a receiver that finds it, one is dropped
      exactly when send_drop_oldest meets a full channel, and always the oldest. */
  predicate MovesItems<T(==)>(s: State<T>, e: Step<T>, r: State<T>)
    requires e.ResumePush? ==> e.t in s.held
  {
    var came := if !s.closed && (|s.buf| < s.capacity || e.SendDropOldest?) then Brought(s, e) else [];
    var left := if FindsItem(s, e) then [true] else if MeetsFull(s, e) then [false] else [];
    && |left| <= |s.buf|
    && r.accepted == s.accepted + came && r.fate == s.fate + left
    && r.buf == s.buf[|left|..] + came
    && r.received == s.received + if FindsItem(s, e) then [s.buf[0]] else []
  }

  lemma SendMovesItems<T>(s: State<T>, e: Step<T>)
    requires 0 < s.capacity && |s.buf| <= s.capacity && (e.Push? || e.ResumePush? || e.TrySend? || e.SendDropOldest?)
    requires e.ResumePush? ==> e.t in s.held
    ensures MovesItems(s, e, Next(s, e))
  {
    hide NotifyOne, Sleep, Leave;
  }

  lemma RecvMovesItems<T>(s: State<T>, e: Step<T>)
    requires 0 < s.capacity && (e.Recv? || e.ResumeRecv? || e.TryRecv? || e.Wake? || e.Close?)
    ensures MovesItems(s, e, Next(s, e))
  {
    hide NotifyOne, NotifyAll, Sleep, Leave;
  }

  lemma NextMovesItems<T>(s: State<T>, e: Step<T>)
    requires Inv(s) && Enabled(s, e)
    ensures e.ResumePush? ==> e.t in s.held
    ensures MovesItems(s, e, Next(s, e))
  {
    if e.ResumePush? { assert e.t in Waiting(s.notFull); }
    hide WaitersOk, NoLostWakeUp, InOrder, Enabled, Next, MovesItems;
    if e.Push? || e.ResumePush? || e.TrySend? || e.SendDropOldest? {
      SendMovesItems(s, e);
    } else {
      RecvMovesItems(s, e);
    }
  }

  // A sender that falls asleep keeps its item, and nobody else touches it.
  lemma SleeperKeepsItem<T>(s: State<T>, e: Step<T>, t: nat)
    requires Inv(s) && Enabled(s, e)
    ensures e.ResumePush? ==> e.t in s.held
    ensures var r := Next(s, e);
      && (t in s.held && !(e.ResumePush? && e.t == t) ==> t in r.held && r.held[t] == s.held[t])
      && (e.Push? && e.t == t && !s.closed && |s.buf| == s.capacity ==> t in r.held && r.held[t] == e.v)
  {
    if e.ResumePush? { assert e.t in Waiting(s.notFull); }
    assert t in s.held ==> t in Threads(s);
  }

  /** A thread waits after its turn exactly when the channel is open and full
      for a sender, open and empty before the deadline for a receiver; nobody
      else's turn changes whether it waits. */
  lemma WaitsWhileItMust<T>(s: State<T>, e: Step<T>, t: nat)
    requires Inv(s) && Enabled(s, e)
    ensures e.ResumePush? ==> e.t in s.held
    ensures t in Threads(Next(s, e)) <==>
      if (e.Push? || e.ResumePush?) && e.t == t then !s.closed && |s.buf| == s.capacity
      else if (e.Recv? || e.ResumeRecv?) && e.t == t then !s.closed && |s.buf| == 0 && !(e.ResumeRecv? && e.late)
      else t in Threads(s)
  {
    hide InOrder, NoLostWakeUp;
    if e.ResumePush? { assert e.t in Waiting(s.notFull); }
  }

  // How many items were dropped as oldest.
  function Dropped(fate: seq<bool>): nat {
    if |fate| == 0 then 0 else Dropped(fate[..|fate| - 1]) + if fate[|fate| - 1] then 0 else 1
  }

  // How many steps of a run are a send_drop_oldest on a full open channel.
  function DropSteps<T>(s: State<T>, es: seq<Step<T>>): nat
    requires Inv(s) && Run(s, es).Some?
    decreases |es|
  {
    if |es| == 0 then 0
    else
      NextKeepsInv(s, es[0]);
      (if MeetsFull(s, es[0]) then 1 else 0) + DropSteps(Next(s, es[0]), es[1..])
  }

  lemma DroppedOneMore(fate: seq<bool>, b: bool)
    ensures Dropped(fate + [b]) == Dropped(fate) + if b then 0 else 1
  {
    assert (fate + [b])[..|fate|] == fate;
  }

  lemma NextDrops<T>(s: State<T>, e: Step<T>)
    requires Inv(s) && Enabled(s, e)
    ensures e.ResumePush? ==> e.t in s.held
    ensures Dropped(Next(s, e).fate) == Dropped(s.fate) + if MeetsFull(s, e) then 1 else 0
  {
    hide Next, Inv, Enabled, Dropped;
    NextMovesItems(s, e);
    DroppedOneMore(s.fate, true);
    DroppedOneMore(s.fate, false);
    assert s.fate + [] == s.fate;
  }

  /** Over every run an item is dropped for each send_drop_oldest that meets a
      full open channel, and for nothing else. */
  lemma {:induction false} DropsAreCounted<T>(s: State<T>, es: seq<Step<T>>)
    requires Inv(s) && Run(s, es).Some?
    ensures Dropped(Run(s, es).value.fate) == Dropped(s.fate) + DropSteps(s, es)
    decreases |es|
  {
    hide Next, WaitersOk, NoLostWakeUp, InOrder, Enabled, Dropped, MeetsFull;
    if |es| > 0 {
      NextKeepsInv(s, es[0]);
      NextDrops(s, es[0]);
      DropsAreCounted(Next(s, es[0]), es[1..]);
    }
  }

  lemma {:induction false} KeptLength<T>(items: seq<T>, fate: seq<bool>)
    requires |fate| == |items|
    ensures |Kept(items, fate)| + Dropped(fate) == |items|
    ensures Dropped(fate) == 0 ==> Kept(items, fate) == items
    decreases |items|
  {
    if |items| > 0 {
      var n := |items| - 1;
      KeptLength(items[..n], fate[..n]);
      assert items == items[..n] + [items[n]];
    }
  }

  lemma CompleteIsUndropped<T>(s: State<T>)
    requires Inv(s)
    ensures s.received + s.buf == s.accepted <==> Dropped(s.fate) == 0
  {
    hide Kept, Dropped, NoLostWakeUp, WaitersOk;
    var n := |s.fate|;
    KeptLength(s.accepted[..n], s.fate);
    assert s.accepted == s.accepted[..n] + s.buf;
  }

  /** Nothing is ever lost exactly as long as no send_drop_oldest meets a full
      open channel: what was received, then what is buffered, is what was
      accepted. */
  lemma NothingIsLost<T>(s: State<T>, es: seq<Step<T>>)
    requires Inv(s) && Run(s, es).Some? && s.received + s.buf == s.accepted
    ensures var r := Run(s, es).value; r.received + r.buf == r.accepted <==> DropSteps(s, es) == 0
  {
    hide Inv, Dropped, Run, DropSteps;
    CompleteIsUndropped(s);
    RunKeepsInv(s, es);
    DropsAreCounted(s, es);
    CompleteIsUndropped(Run(s, es).value);
  }

  /** After close nothing is accepted, nobody starts to wait, and every waiting
      thread leaves at its next turn. */
  lemma ClosedReleases<T>(s: State<T>, e: Step<T>)
    requires Inv(s) && s.closed && Enabled(s, e)
    ensures e.ResumePush? ==> e.t in s.held
    ensures var r := Next(s, e);
      && r.closed && r.accepted == s.accepted && Threads(r) <= Threads(s)
      && (e.ResumePush? || e.ResumeRecv? ==> e.t in Threads(s) && e.t !in Threads(r))
      && (forall t :: t in Threads(s) ==> t in s.notEmpty.woken || t in s.notFull.woken)
  {
    if e.ResumePush? { assert e.t in Waiting(s.notFull); }
  }

  // ---- The class --------------------------------------------------------

  datatype SendResult = Ok | Full | Closed

  /** The channel and its two condition variables.  Each method is one critical
      section: push, recv and recv_until end in an answer, or in going to sleep
      (None); a woken thread comes back through the Resume methods. */
  class Channel<T(==)> {
    const capacity: nat
    var buf: seq<T>
    var closed: bool
    var notEmpty: Cv
    var notFull: Cv
    var held: map<nat, T>
    var timed: set<nat>
    ghost var accepted: seq<T>
    ghost var fate: seq<bool>
    ghost var received: seq<T>

    ghost function View(): State<T> reads this {
      State(buf, capacity, closed, notEmpty, notFull, held, timed, accepted, fate, received)
    }

    constructor (capacity: nat)
      ensures View() == Start(capacity)
    {
      this.capacity := capacity;
      buf, closed := [], false;
      notEmpty, notFull, held, timed := Cv({}, {}), Cv({}, {}), map[], {};
      accepted, fate, received := [], [], [];
    }

    method PushBack(v: T, pick: nat)
      modifies this
      ensures View() == Put(old(View()), v, pick)
    {
      buf := buf + [v];
      accepted := accepted + [v];
      notEmpty := NotifyOne(notEmpty, pick);
    }

    method PopFront(pick: nat) returns (v: T)
      requires |buf| > 0
      modifies this
      ensures v == old(buf)[0] && View() == Take(old(View()), pick)
    {
      v := buf[0];
      buf := buf[1..];
      fate, received := fate + [true], received + [v];
      notFull := NotifyOne(notFull, pick);
    }

    method StartPush(t: nat, v: T, pick: nat) returns (done: Option<bool>)
      requires capacity > 0
      modifies this
      ensures View() == Next(old(View()), Push(t, v, pick))
      ensures done == if old(closed) then Some(false) else if |old(buf)| < capacity then Some(true) else None
    {
      if closed { return Some(false); }
      if |buf| < capacity {
        PushBack(v, pick);
        return Some(true);
      }
      held := held[t := v];
      notFull := Sleep(notFull, t);
      return None;
    }

    method ResumePushing(t: nat, pick: nat) returns (done: Option<bool>)
      requires capacity > 0 && t in held
      modifies this
      ensures View() == Next(old(View()), ResumePush(t, pick))
      ensures done == if old(closed) then Some(false) else if |old(buf)| < capacity then Some(true) else None
    {
      if !closed && |buf| >= capacity {
        notFull := Sleep(notFull, t);
        return None;
      }
      notFull := Leave(notFull, t);
      var v := held[t];
      held := held - {t};
      if closed { return Some(false); }
      PushBack(v, pick);
      return Some(true);
    }

    method TrySending(v: T, pick: nat) returns (r: SendResult)
      requires capacity > 0
      modifies this
      ensures View() == Next(old(View()), TrySend(v, pick))
      ensures r == if old(closed) then Closed else if |old(buf)| >= capacity then Full else Ok
    {
      if closed { return Closed; }
      if |buf| >= capacity { return Full; }
      PushBack(v, pick);
      return Ok;
    }

    method SendDroppingOldest(v: T, pick: nat) returns (ok: bool)
      requires capacity > 0
      modifies this
      ensures View() == Next(old(View()), SendDropOldest(v, pick)) && ok == !old(closed)
      ensures !ok ==> buf == old(buf)
      ensures ok && |old(buf)| < capacity ==> buf == old(buf) + [v]
      ensures ok && |old(buf)| == capacity ==> buf == old(buf)[1..] + [v]
    {
      if closed { return false; }
      if |buf| >= capacity {
        buf := buf[1..];
        fate := fate + [false];
      }
      PushBack(v, pick);
      return true;
    }

    // recv, or recv_until with a deadline.
    method StartRecv(t: nat, isTimed: bool, pick: nat) returns (done: Option<Option<T>>)
      requires capacity > 0
      modifies this
      ensures View() == Next(old(View()), Recv(t, isTimed, pick))
      ensures done == if |old(buf)| > 0 then Some(Some(old(buf)[0])) else if old(closed) then Some(None) else None
    {
      if |buf| > 0 {
        var v := PopFront(pick);
        return Some(Some(v));
      }
      if closed { return Some(None); }
      notEmpty := Sleep(notEmpty, t);
      timed := if isTimed then timed + {t} else timed - {t};
      return None;
    }

    method ResumeReceiving(t: nat, late: bool, pick: nat) returns (done: Option<Option<T>>)
      requires capacity > 0
      modifies this
      ensures View() == Next(old(View()), ResumeRecv(t, late, pick))
      ensures done == if |old(buf)| > 0 then Some(Some(old(buf)[0]))
                      else if old(closed) || late then Some(None)
                      else None
    {
      if |buf| == 0 && !closed && !late {
        notEmpty := Sleep(notEmpty, t);
        return None;
      }
      notEmpty := Leave(notEmpty, t);
      if |buf| == 0 { return Some(None); }
      var v := PopFront(pick);
      return Some(Some(v));
    }

    method TryReceiving(pick: nat) returns (r: Option<T>)
      requires capacity > 0
      modifies this
      ensures View() == Next(old(View()), TryRecv(pick))
      ensures r == if |old(buf)| > 0 then Some(old(buf)[0]) else None
    {
      if |buf| == 0 { return None; }
      var v := PopFront(pick);
      return Some(v);
    }

    method CloseDown()
      requires capacity > 0
      modifies this
      ensures View() == Next(old(View()), Step<T>.Close)
    {
      closed := true;
      notEmpty := NotifyAll(notEmpty);
      notFull := NotifyAll(notFull);
    }
  }
}
