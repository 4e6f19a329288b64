module RecvTracking {
  // The reader's receive tracker (include/dds/rtps/reliable.hpp).  The class is
  // proved against functions on values; what the protocol needs is proved about
  // the functions.

  import opened Octets
  import opened Bits

  const MAX_REORDER_AHEAD: nat := 8192
  const WINDOW: nat := 32
  // Sequence numbers stay 32 below 2^64, so `base + 31` and `++expected_`
  // never wrap.  A writer counts up from 1.
  const SN_BOUND: nat := 0xFFFF_FFFF_FFFF_FFE0
  const U64: nat := 0x1_0000_0000_0000_0000

  datatype Tracker = Tracker(expected: nat, ahead: set<nat>, initDone: bool)

  const FRESH := Tracker(0, {}, false)

  datatype Request = Request(base: nat, bitmap: nat, needAck: bool)

  function AfterInit(t: Tracker, first: nat): Tracker {
    if t.initDone then t else t.(expected := first, initDone := true)
  }

  // The watermark moves over every buffered successor.
  function Drain(expected: nat, ahead: set<nat>): (nat, set<nat>)
    decreases |ahead|
  {
    if expected in ahead then Drain(expected + 1, ahead - {expected})
    else (expected, ahead)
  }

  function AfterRecord(t: Tracker, sn: nat): Tracker {
    var u := AfterInit(t, sn);
    if sn < u.expected then u
    else if sn == u.expected then
      var d := Drain(u.expected + 1, u.ahead);
      Tracker(d.0, d.1, true)
    else if sn in u.ahead || sn - u.expected > MAX_REORDER_AHEAD then u
    else u.(ahead := u.ahead + {sn})
  }

  // What `record` answers: false exactly for a number already taken in.
  predicate RecordIsNew(t: Tracker, sn: nat) {
    var u := AfterInit(t, sn);
    sn == u.expected || (u.expected < sn && sn !in u.ahead)
  }

  // Bits [0, n) of the request bitmap.
  function MissingBits(t: Tracker, n: nat): nat {
    if n == 0 then 0
    else
      var w := MissingBits(t, n - 1);
      if t.expected + n - 1 in t.ahead then w else SetBit(w, n - 1)
  }

  function WindowLength(t: Tracker, last: nat): nat {
    if last < t.expected then 0
    else if last - t.expected < WINDOW then last - t.expected + 1 else WINDOW
  }

  function RequestFor(t: Tracker, last: nat): Request {
    if !t.initDone then Request(0, 0, false)
    else
      var w := MissingBits(t, WindowLength(t, last));
      Request(t.expected, w, w != 0)
  }

  // ---- The tracker in terms of the numbers it has taken in --------------

  /** The reference: `got` is every number accepted at or above `base`. */
  datatype Window = Window(base: nat, got: set<nat>)

  // n is the least number from base on that is not in got.
  ghost predicate IsLeastMissing(w: Window, n: nat) {
    && w.base <= n && n !in w.got
    && forall k :: w.base <= k < n ==> k in w.got
  }

  // A number is accepted when it is at most MAX_REORDER_AHEAD past the least
  // missing one (any number at all when nothing was heard before).
  ghost function Accept(w: Window, least: nat, sn: nat): Window {
    if least <= sn <= least + MAX_REORDER_AHEAD then w.(got := w.got + {sn}) else w
  }

  ghost predicate Refines(t: Tracker, w: Window) {
    && t.initDone
    && IsLeastMissing(w, t.expected)
    && t.ahead == (set k | k in w.got && k > t.expected)
    && (forall k :: k in w.got ==> w.base <= k <= t.expected + MAX_REORDER_AHEAD)
  }

  lemma LeastMissingIsUnique(w: Window, m: nat, n: nat)
    requires IsLeastMissing(w, m) && IsLeastMissing(w, n)
    ensures m == n
  {
    assert !(m < n) && !(n < m);
  }

  lemma InitRefines(first: nat)
    ensures Refines(AfterInit(FRESH, first), Window(first, {}))
  {}

  lemma {:induction false} DrainFinds(expected: nat, ahead: set<nat>)
    ensures var (e, a) := Drain(expected, ahead);
      && expected <= e && e !in a
      && (forall k :: expected <= k < e ==> k in ahead)
      && (forall k :: k in a <==> k in ahead && !(expected <= k < e))
      && e !in ahead
    decreases |ahead|
  {
    if expected in ahead {
      DrainFinds(expected + 1, ahead - {expected});
      var d := Drain(expected + 1, ahead - {expected});
      forall k | expected <= k < d.0 ensures k in ahead {
        if k > expected { assert k in ahead - {expected}; }
      }
    }
  }

  lemma RecordRefines(t: Tracker, w: Window, sn: nat)
    requires Refines(t, w)
    ensures Refines(AfterRecord(t, sn), Accept(w, t.expected, sn))
    ensures RecordIsNew(t, sn) <==> sn >= w.base && sn !in w.got
    ensures t.expected <= AfterRecord(t, sn).expected
  {
    if sn == t.expected {
      DrainFinds(sn + 1, t.ahead);
      var u := AfterRecord(t, sn);
      var v := Accept(w, t.expected, sn);
      forall k | w.base <= k < u.expected ensures k in v.got {
        if k > sn { assert k in t.ahead; }
      }
      assert u.ahead == (set k | k in v.got && k > u.expected);
    }
  }

  // First contact through a sample anchors the base at that sample.
  lemma FirstRecordRefines(sn: nat)
    ensures Refines(AfterRecord(FRESH, sn), Window(sn, {sn}))
  {
    InitRefines(sn);
    RecordRefines(AfterInit(FRESH, sn), Window(sn, {}), sn);
    assert AfterRecord(FRESH, sn) == AfterRecord(AfterInit(FRESH, sn), sn);
    assert {} + {sn} == {sn};
  }

  lemma {:induction false} MissingBitsExact(t: Tracker, n: nat, i: nat)
    ensures Bit(MissingBits(t, n), i) <==> i < n && t.expected + i !in t.ahead
    decreases n
  {
    if n == 0 {
      ZeroHasNoBits(i);
    } else {
      MissingBitsExact(t, n - 1, i);
      SetBitGet(MissingBits(t, n - 1), n - 1, i);
    }
  }

  lemma {:induction false} MissingBitsFit(t: Tracker, n: nat, m: nat)
    requires n <= m
    ensures MissingBits(t, n) < Pow2(m)
    decreases n, m
  {
    if n > 0 {
      MissingBitsFit(t, n - 1, m);
      SetBitFits(MissingBits(t, n - 1), n - 1, m);
    } else if m > 0 {
      MissingBitsFit(t, 0, m - 1);
    }
  }

  // A request asks for exactly the unaccepted numbers of one 32-wide window,
  // and is empty only when the reader has caught up.
  lemma MissingIsExact(t: Tracker, w: Window, last: nat, i: nat)
    requires Refines(t, w)
    ensures var q := RequestFor(t, last);
      && q.base == t.expected && q.bitmap < Pow2(WINDOW)
      && (Bit(q.bitmap, i) <==> i < WINDOW && t.expected + i <= last && t.expected + i !in w.got)
      && (q.needAck <==> t.expected <= last)
  {
    var n := WindowLength(t, last);
    MissingBitsExact(t, n, i);
    MissingBitsFit(t, n, WINDOW);
    MissingBitsExact(t, n, 0);
    ZeroHasNoBits(0);
    if i == 0 { ZeroHasNoBits(i); }
    assert MissingBits(t, 0) == 0;
  }

  // ---- Whole call sequences ---------------------------------------------

  datatype Op = OpInit(first: nat) | OpRecord(sn: nat)

  function Apply(t: Tracker, op: Op): Tracker {
    match op
    case OpInit(first) => AfterInit(t, first)
    case OpRecord(sn) => AfterRecord(t, sn)
  }

  function TrackerAfter(ops: seq<Op>): Tracker {
    if ops == [] then FRESH else Apply(TrackerAfter(ops[..|ops| - 1]), ops[|ops| - 1])
  }

  // The accepted set of a call sequence, defined without the tracker's fields
  // except the least missing number, which Refines makes unique.
  ghost function Accepted(ops: seq<Op>): Window
    requires ops != []
  {
    var op := ops[|ops| - 1];
    if |ops| == 1 then
      match op { case OpInit(f) => Window(f, {}) case OpRecord(sn) => Window(sn, {sn}) }
    else
      var w := Accepted(ops[..|ops| - 1]);
      match op
      case OpInit(_) => w
      case OpRecord(sn) =>
        if exists n: nat :: IsLeastMissing(w, n) && n <= sn <= n + MAX_REORDER_AHEAD
        then w.(got := w.got + {sn}) else w
  }

  // After any call sequence the watermark is the least unaccepted number from
  // the base and `ahead_` is exactly the accepted numbers above it.
  lemma {:induction false} RunRefinesAccepted(ops: seq<Op>)
    requires ops != []
    ensures Refines(TrackerAfter(ops), Accepted(ops))
  {
    var op := ops[|ops| - 1];
    if |ops| == 1 {
      assert ops[..0] == [];
      match op { case OpInit(f) => InitRefines(f); case OpRecord(sn) => FirstRecordRefines(sn); }
    } else {
      var before := ops[..|ops| - 1];
      RunRefinesAccepted(before);
      match op {
        case OpInit(_) =>
        case OpRecord(sn) =>
          var t, w := TrackerAfter(before), Accepted(before);
          RecordRefines(t, w, sn);
          if n: nat :| IsLeastMissing(w, n) && n <= sn <= n + MAX_REORDER_AHEAD {
            LeastMissingIsUnique(w, n, t.expected);
          }
      }
    }
  }

  // ---- The class --------------------------------------------------------

  class RecvTracker {
    var expected: nat
    var ahead: set<nat>
    var initDone: bool

    function State(): Tracker reads this { Tracker(expected, ahead, initDone) }

    constructor ()
      ensures State() == FRESH
    {
      expected, ahead, initDone := 0, {}, false;
    }

    method InitExpected(first: nat)
      modifies this
      ensures State() == AfterInit(old(State()), first)
    {
      if !initDone {
        expected := first;
        initDone := true;
      }
    }

    method Record(sn: nat) returns (isNew: bool)
      requires sn + 1 < U64    // so the watermark, which follows numbers taken in, never wraps
      modifies this
      ensures State() == AfterRecord(old(State()), sn)
      ensures isNew == RecordIsNew(old(State()), sn)
    {
      if !initDone {
        expected := sn;
        initDone := true;
      }
      if sn < expected {
        return false;
      }
      if sn == expected {
        expected := expected + 1;
        while expected in ahead
          invariant Drain(expected, ahead) == Drain(sn + 1, old(ahead))
          invariant initDone
          decreases |ahead|
        {
          ahead := ahead - {expected};
          expected := expected + 1;
        }
        return true;
      }
      if sn in ahead {
        return false;
      }
      if sn - expected <= MAX_REORDER_AHEAD {
        ahead := ahead + {sn};
      }
      return true;
    }

    method Missing(last: nat) returns (q: Request)
      requires last < expected || expected + 32 < U64
      ensures q == RequestFor(State(), last)
    {
      if !initDone {
        return Request(0, 0, false);
      }
      var base := expected;
      if last < base {
        return Request(base, 0, false);
      }
      var end := last;
      if end > base + 31 { end := base + 31; }
      var bitmap, needAck, sn := 0, false, base;
      while sn <= end
        invariant base <= sn <= end + 1
        invariant bitmap == MissingBits(State(), sn - base)
        invariant needAck <==> bitmap != 0
      {
        if sn !in ahead {
          bitmap := Bits.SetBit(bitmap, sn - base);
          SetBitGet(MissingBits(State(), sn - base), sn - base, sn - base);
          ZeroHasNoBits(sn - base);
          needAck := true;
        }
        sn := sn + 1;
      }
      q := Request(base, bitmap, needAck);
    }
  }
}
