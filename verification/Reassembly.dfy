module Reassembly {
  // What reassembly achieves over whole runs.  One sample's assembler state is
  // a set of fragment indices; the theorems say when the sample comes out.

  import opened Octets
  import opened Rtps
  import opened Fragments

  /** Where one sample stands: nothing held, or the indices received so far of
      a reassembly in fragments of size fs that began at `created`. */
  datatype Progress = Idle | Held(fs: nat, got: set<nat>, created: int)

  predicate Within(got: set<nat>, n: nat) { forall i :: i in got ==> i < n }

  predicate Complete(size: nat, fs: nat, got: set<nat>)
    requires fs > 0
  {
    forall i :: 0 <= i < Total(size, fs) ==> i in got
  }

  function Aged(s: Progress, now: int): Progress {
    if s.Held? && now - s.created > STALE_AGE then Idle else s
  }

  // Fragment i of size fs arrives: the new standing, and whether the sample comes out.
  function Took(size: nat, s: Progress, fs: nat, i: nat, now: int): (Progress, bool)
    requires fs > 0
  {
    var t := Aged(s, now);
    if t.Held? && t.fs != fs then (t, false)
    else
      var got := (if t.Held? then t.got else {}) + {i};
      if Complete(size, fs, got) then (Idle, true)
      else (Held(fs, got, if t.Held? then t.created else now), false)
  }

  // ---- The buffer a set of indices stands for ---------------------------

  // The fragment that carries byte j: j / fs, by subtraction.
  function Row(j: nat, fs: nat): nat
    requires fs > 0
  {
    if j < fs then 0 else 1 + Row(j - fs, fs)
  }

  function Have(p: Bytes, fs: nat, got: set<nat>): (r: Bytes)
    requires fs > 0
    ensures |r| == |p|
  {
    seq(|p|, j requires 0 <= j < |p| => if Row(j, fs) in got then p[j] else 0)
  }

  function MaskOf(n: nat, got: set<nat>): (r: seq<bool>)
    ensures |r| == n
  {
    seq(n, i requires 0 <= i < n => i in got)
  }

  function BufferFor(p: Bytes, fs: nat, got: set<nat>, created: int): Buffer
    requires fs > 0
  {
    Buffer(Have(p, fs, got), MaskOf(Total(|p|, fs), got), |got|, Total(|p|, fs), |p|, fs, created)
  }

  predicate IsSample(p: Bytes) { 0 < |p| <= MAX_REASSEMBLY }

  predicate Tracks(bs: Buffers, key: Key, p: Bytes, s: Progress) {
    match s
    case Idle => key !in bs
    case Held(fs, got, created) =>
      0 < fs < U16 && Within(got, Total(|p|, fs)) && key in bs && bs[key] == BufferFor(p, fs, got, created)
  }

  lemma {:induction false} TotalFits(size: nat, fs: nat)
    requires fs > 0
    ensures Total(size, fs) <= size
    decreases size
  {
    if size > fs { TotalFits(size - fs, fs); }
  }

  lemma {:induction false} Covers(i: nat, j: nat, fs: nat)
    requires fs > 0
    ensures Row(j, fs) == i <==> Start(i, fs) <= j < Start(i, fs) + fs
    decreases j
  {
    if i > 0 { StartStep(i, fs); }
    if j >= fs && i > 0 { Covers(i - 1, j - fs, fs); }
  }

  lemma {:induction false} PieceLands(p: Bytes, fs: nat, got: set<nat>, i: nat)
    requires fs > 0 && i < Total(|p|, fs)
    ensures Start(i, fs) + |Piece(p, fs, i)| <= |p|
    ensures Spliced(Have(p, fs, got), Start(i, fs), Piece(p, fs, i)) == Have(p, fs, got + {i})
  {
    StartTotal(i, |p|, fs);
    SplicedIn(p, fs, got, i, Start(i, fs), Piece(p, fs, i));
  }

  lemma SplicedIn(p: Bytes, fs: nat, got: set<nat>, i: nat, at: nat, piece: Bytes)
    requires fs > 0 && at < |p| && at == Start(i, fs) && piece == p[at..Min(at + fs, |p|)]
    ensures Spliced(Have(p, fs, got), at, piece) == Have(p, fs, got + {i})
  {
    var r := Spliced(Have(p, fs, got), at, piece);
    forall j | 0 <= j < |p| ensures r[j] == Have(p, fs, got + {i})[j] {
      Covers(i, j, fs);
    }
  }

  lemma MarkLands(n: nat, got: set<nat>, i: nat)
    requires i < n
    ensures MaskOf(n, got)[i := true] == MaskOf(n, got + {i})
    ensures i in got ==> got + {i} == got
    ensures |got + {i}| == |got| + if i in got then 0 else 1
  {
    if i in got { assert got + {i} == got; }
  }

  // How the splitter's fragment i looks to the assembler.
  lemma {:induction false} OwnFragment(writer: EntityId, sn: SeqNum, p: Bytes, fs: u16, i: nat, k: nat)
    requires IsSample(p) && fs > 0 && i < Total(|p|, fs) && k == 0
    ensures var f := FragAt(writer, sn, p, fs, i);
      && Plausible(f) && f.dataSize == |p|
      && IndexAt(f, k) == i && OffsetAt(f, k) == Start(i, fs) < |p| && ChunkAt(f, k) == Piece(p, fs, i)
  {
    TotalFits(|p|, fs);
    OwnOffset(i, |p|, fs, k);
    OwnChunk(p, fs, i, k);
  }

  lemma OwnOffset(i: nat, size: nat, fs: nat, k: nat)
    requires fs > 0 && i < Total(size, fs) && size < U32 && Total(size, fs) <= size && k == 0
    ensures (i + 1) % U32 == i + 1 && size % U32 == size && (i + 1 + U32 - 1 + k) % U32 == i
    ensures Start(i, fs) < size && Start(i, fs) % U32 == Start(i, fs)
  {
    StartTotal(i, size, fs);
  }

  lemma OwnChunk(p: Bytes, fs: nat, i: nat, k: nat)
    requires fs > 0 && i < Total(|p|, fs) && k == 0
    ensures Chunk(Piece(p, fs, i), Start(k, fs), fs) == Piece(p, fs, i)
  {
    StartTotal(i, |p|, fs);
    var piece := Piece(p, fs, i);
    assert Start(k, fs) == 0 && 0 < |piece| <= fs;
    assert piece[0..|piece|] == piece;
  }

  lemma OwnFits(f: DataFrag, k: nat)
    requires f.fragSize > 0 && f.count == 1 && k == 0
    requires IndexAt(f, k) < Total(f.dataSize, f.fragSize) && OffsetAt(f, k) + |ChunkAt(f, k)| <= f.dataSize
    ensures Fits(f, k)
  {
    assert Fits(f, k + 1);
  }

  lemma OwnAbsorbs(b: Buffer, f: DataFrag, k: nat)
    requires BufferOk(b) && SameGeometry(b, f) && f.count == 1 && k == 0
    requires OffsetAt(f, k) < f.dataSize && Fits(f, k)
    ensures Absorb(b, f, k) == Marked(b.(data := Spliced(b.data, OffsetAt(f, k), ChunkAt(f, k))), IndexAt(f, k))
  {
    CountMarked(b.mask, IndexAt(f, k));
    var c := Marked(b.(data := Spliced(b.data, OffsetAt(f, k), ChunkAt(f, k))), IndexAt(f, k));
    assert Absorb(c, f, k + 1) == c;
  }

  lemma WithoutLast(n: nat, got: set<nat>)
    requires Within(got, n) && n > 0
    ensures Within(got - {n - 1}, n - 1)
    ensures |got| == |got - {n - 1}| + if n - 1 in got then 1 else 0
  {
    if n - 1 in got { assert got == (got - {n - 1}) + {n - 1}; } else { assert got == got - {n - 1}; }
  }

  lemma {:induction false} MarksCount(n: nat, got: set<nat>)
    requires Within(got, n)
    ensures Count(MaskOf(n, got)) == |got|
  {
    if n > 0 {
      WithoutLast(n, got);
      MarksCount(n - 1, got - {n - 1});
      assert MaskOf(n, got)[..n - 1] == MaskOf(n - 1, got - {n - 1});
    } else {
      assert got == {};
    }
  }

  lemma {:induction false} CountOf(n: nat, got: set<nat>)
    requires Within(got, n)
    ensures Count(MaskOf(n, got)) == |got| <= n
    ensures |got| == n <==> forall i :: 0 <= i < n ==> i in got
  {
    MarksCount(n, got);
    if n > 0 {
      WithoutLast(n, got);
      var less := got - {n - 1};
      CountOf(n - 1, less);
      assert forall i :: 0 <= i < n - 1 ==> (i in less <==> i in got);
    } else {
      assert got == {};
    }
  }

  // ---- One fragment -----------------------------------------------------

  // Fragment i of the sample, put into the buffer for `got`.
  lemma OwnLands(writer: EntityId, sn: SeqNum, p: Bytes, fs: u16, got: set<nat>, created: int, i: nat)
    requires IsSample(p) && fs > 0 && i < Total(|p|, fs) && Within(got, Total(|p|, fs))
    ensures var f, b := FragAt(writer, sn, p, fs, i), BufferFor(p, fs, got, created);
      && Fits(f, 0) && BufferOk(b) && SameGeometry(b, f)
      && Absorb(b, f, 0) == BufferFor(p, fs, got + {i}, created)
  {
    var f, b, n := FragAt(writer, sn, p, fs, i), BufferFor(p, fs, got, created), Total(|p|, fs);
    OwnFragment(writer, sn, p, fs, i, 0);
    PieceLands(p, fs, got, i);
    MarkLands(n, got, i);
    CountOf(n, got);
    OwnFits(f, 0);
    OwnAbsorbs(b, f, 0);
  }

  lemma FreshIsEmpty(writer: EntityId, sn: SeqNum, p: Bytes, fs: u16, i: nat, now: int)
    requires IsSample(p) && fs > 0 && i < Total(|p|, fs)
    ensures var f := FragAt(writer, sn, p, fs, i); Plausible(f) && NewBuffer(f, now) == BufferFor(p, fs, {}, now)
  {
    OwnFragment(writer, sn, p, fs, i, 0);
    var f := FragAt(writer, sn, p, fs, i);
    assert NewBuffer(f, now).data == Have(p, fs, {});
    assert NewBuffer(f, now).mask == MaskOf(Total(|p|, fs), {});
  }

  lemma EverythingIsHad(p: Bytes, fs: nat, got: set<nat>)
    requires fs > 0 && Complete(|p|, fs, got)
    ensures Have(p, fs, got) == p
  {
    forall j | 0 <= j < |p| ensures Row(j, fs) in got {
      Covers(Row(j, fs), j, fs);
      StartTotal(Row(j, fs), |p|, fs);
    }
  }

  lemma SweptTracks(bs: Buffers, key: Key, p: Bytes, s: Progress, now: int)
    requires Tracks(bs, key, p, s)
    ensures Tracks(Swept(bs, now), key, p, Aged(s, now))
  {}

  lemma {:induction false} OwnJoins(
    live: Buffers, g: Guid, sn: SeqNum, p: Bytes, t: Progress, fs: u16, i: nat, now: int)
    requires IsSample(p) && fs > 0 && i < Total(|p|, fs) && Tracks(live, Key(g, ToU64(sn)), p, t)
    requires t.Held? ==> t.fs == fs
    ensures var f, key := FragAt(g.entity, sn, p, fs, i), Key(g, ToU64(sn));
      && Plausible(f) && Fits(f, 0)
      && var b := if key in live then live[key] else NewBuffer(f, now);
      BufferOk(b) && SameGeometry(b, f) &&
      Absorb(b, f, 0) == BufferFor(p, fs, (if t.Held? then t.got else {}) + {i}, if t.Held? then t.created else now)
  {
    var got, created := if t.Held? then t.got else {}, if t.Held? then t.created else now;
    OwnFragment(g.entity, sn, p, fs, i, 0);
    FreshIsEmpty(g.entity, sn, p, fs, i, now);
    OwnLands(g.entity, sn, p, fs, got, created, i);
  }

  lemma OwnSettles(live: Buffers, key: Key, p: Bytes, fs: u16, got: set<nat>, created: int)
    requires BuffersOk(live) && fs > 0 && Within(got, Total(|p|, fs))
    requires BufferOk(BufferFor(p, fs, got, created))
    ensures var r, done := Settled(live, key, BufferFor(p, fs, got, created)), Complete(|p|, fs, got);
      && Tracks(r.0, key, p, if done then Idle else Held(fs, got, created))
      && r.1 == if done then Some(p) else None
  {
    CountOf(Total(|p|, fs), got);
    if Complete(|p|, fs, got) { EverythingIsHad(p, fs, got); }
  }

  lemma {:induction false} Arrives(bs: Buffers, g: Guid, f: DataFrag, p: Bytes, s: Progress, i: nat, now: int)
    requires BuffersOk(bs) && Plausible(f) && f.dataSize == |p| && i < Total(|p|, f.fragSize)
    requires Tracks(bs, KeyOf(g, f), p, s)
    requires var t, live := Aged(s, now), Swept(bs, now);
      (t.Held? ==> t.fs == f.fragSize) ==>
      && Fits(f, 0)
      && var b := if KeyOf(g, f) in live then live[KeyOf(g, f)] else NewBuffer(f, now);
      BufferOk(b) && SameGeometry(b, f) && Absorb(b, f, 0) ==
      BufferFor(p, f.fragSize, (if t.Held? then t.got else {}) + {i}, if t.Held? then t.created else now)
    ensures var t := Took(|p|, s, f.fragSize, i, now);
      && Safe(bs, g, f, now)
      && var r := Receive(bs, g, f, now);
      Tracks(r.0, KeyOf(g, f), p, t.0) && r.1 == if t.1 then Some(p) else None
  {
    var live, t := Swept(bs, now), Aged(s, now);
    SweptTracks(bs, KeyOf(g, f), p, s, now);
    if t.Held? && t.fs != f.fragSize {
      assert Disagrees(bs, g, f, now);
    } else {
      assert !Disagrees(bs, g, f, now);
      var got, created := (if t.Held? then t.got else {}) + {i}, if t.Held? then t.created else now;
      OwnSettles(live, KeyOf(g, f), p, f.fragSize, got, created);
    }
  }

  /** Every arrival of a fragment of the sample moves the assembler as `Took`
      says: nothing comes out until the last missing index arrives, and then
      exactly the sample does. */
  lemma {:induction false} OwnArrives(
    bs: Buffers, g: Guid, sn: SeqNum, p: Bytes, s: Progress, fs: u16, i: nat, now: int)
    requires BuffersOk(bs) && IsSample(p) && fs > 0 && i < Total(|p|, fs) && Tracks(bs, Key(g, ToU64(sn)), p, s)
    ensures var f, t := FragAt(g.entity, sn, p, fs, i), Took(|p|, s, fs, i, now);
      && Safe(bs, g, f, now)
      && var r := Receive(bs, g, f, now);
      Tracks(r.0, Key(g, ToU64(sn)), p, t.0) && r.1 == if t.1 then Some(p) else None
  {
    var f, t := FragAt(g.entity, sn, p, fs, i), Aged(s, now);
    OwnFragment(g.entity, sn, p, fs, i, 0);
    SweptTracks(bs, KeyOf(g, f), p, s, now);
    if t.Held? ==> t.fs == fs {
      OwnJoins(Swept(bs, now), g, sn, p, t, fs, i, now);
    }
    Arrives(bs, g, f, p, s, i, now);
  }

  // A fragment of another sample only lets time pass.
  lemma ForeignArrives(bs: Buffers, key: Key, p: Bytes, s: Progress, g: Guid, f: DataFrag, now: int)
    requires BuffersOk(bs) && Tracks(bs, key, p, s) && KeyOf(g, f) != key && Safe(bs, g, f, now)
    ensures Tracks(Receive(bs, g, f, now).0, key, p, if Plausible(f) then Aged(s, now) else s)
  {
    SweptTracks(bs, key, p, s, now);
  }

  // ---- Whole runs -------------------------------------------------------

  /** What reaches the assembler: fragment i of the sample, cut in pieces of fs
      bytes, or a fragment of some other sample; each at its time. */
  datatype Event =
    | Own(fs: u16, i: nat, now: int)
    | Foreign(g: Guid, f: DataFrag, now: int)

  predicate EventOk(key: Key, p: Bytes, e: Event) {
    match e
    case Own(fs, i, _) => fs > 0 && i < Total(|p|, fs)
    case Foreign(g, f, _) => KeyOf(g, f) != key && (Plausible(f) ==> Fits(f, 0))
  }

  predicate EventsOk(key: Key, p: Bytes, es: seq<Event>) {
    forall k :: 0 <= k < |es| ==> EventOk(key, p, es[k])
  }

  // One step of the assembler...
  function Fed(bs: Buffers, g: Guid, sn: SeqNum, p: Bytes, e: Event): (r: (Buffers, Option<Bytes>))
    requires BuffersOk(bs) && EventOk(Key(g, ToU64(sn)), p, e)
    ensures BuffersOk(r.0)
  {
    match e
    case Own(fs, i, now) =>
      var f := FragAt(g.entity, sn, p, fs, i);
      if Safe(bs, g, f, now) then Receive(bs, g, f, now) else (bs, None)
    case Foreign(g', f, now) => Receive(bs, g', f, now)
  }

  // ...and of the sample's standing.
  function Moved(p: Bytes, s: Progress, e: Event): (Progress, bool)
    requires e.Own? ==> e.fs > 0
  {
    match e
    case Own(fs, i, now) => Took(|p|, s, fs, i, now)
    case Foreign(_, f, now) => (if Plausible(f) then Aged(s, now) else s, false)
  }

  lemma FedMoves(bs: Buffers, g: Guid, sn: SeqNum, p: Bytes, s: Progress, e: Event)
    requires BuffersOk(bs) && IsSample(p) && EventOk(Key(g, ToU64(sn)), p, e) && Tracks(bs, Key(g, ToU64(sn)), p, s)
    ensures Tracks(Fed(bs, g, sn, p, e).0, Key(g, ToU64(sn)), p, Moved(p, s, e).0)
    ensures e.Own? ==> Fed(bs, g, sn, p, e).1 == if Moved(p, s, e).1 then Some(p) else None
  {
    match e
    case Own(fs, i, now) => OwnArrives(bs, g, sn, p, s, fs, i, now);
    case Foreign(g', f, now) => ForeignArrives(bs, Key(g, ToU64(sn)), p, s, g', f, now);
  }

  // What the assembler hands over at the arrivals of the sample's own fragments.
  function Outputs(bs: Buffers, g: Guid, sn: SeqNum, p: Bytes, es: seq<Event>): (r: seq<Option<Bytes>>)
    requires BuffersOk(bs) && EventsOk(Key(g, ToU64(sn)), p, es)
    ensures |r| == |es|
    decreases |es|
  {
    if |es| == 0 then []
    else
      var r := Fed(bs, g, sn, p, es[0]);
      [if es[0].Own? then r.1 else None] + Outputs(r.0, g, sn, p, es[1..])
  }

  predicate SizesOk(es: seq<Event>) { forall k :: 0 <= k < |es| && es[k].Own? ==> es[k].fs > 0 }

  function Standing(p: Bytes, s: Progress, es: seq<Event>): Progress
    requires SizesOk(es)
    decreases |es|
  {
    if |es| == 0 then s else Standing(p, Moved(p, s, es[0]).0, es[1..])
  }

  function Due(p: Bytes, s: Progress, es: seq<Event>, k: nat): bool
    requires SizesOk(es) && k < |es|
    decreases |es|
  {
    if k == 0 then Moved(p, s, es[0]).1 else Due(p, Moved(p, s, es[0]).0, es[1..], k - 1)
  }

  lemma OutputsLater(bs: Buffers, g: Guid, sn: SeqNum, p: Bytes, es: seq<Event>, k: nat)
    requires BuffersOk(bs) && EventsOk(Key(g, ToU64(sn)), p, es) && 0 < k < |es|
    ensures EventsOk(Key(g, ToU64(sn)), p, es[1..])
    ensures Outputs(bs, g, sn, p, es)[k] == Outputs(Fed(bs, g, sn, p, es[0]).0, g, sn, p, es[1..])[k - 1]
  {}

  lemma OutputsFirst(bs: Buffers, g: Guid, sn: SeqNum, p: Bytes, es: seq<Event>)
    requires BuffersOk(bs) && EventsOk(Key(g, ToU64(sn)), p, es) && 0 < |es|
    ensures Outputs(bs, g, sn, p, es)[0] == if es[0].Own? then Fed(bs, g, sn, p, es[0]).1 else None
  {}

  /** Over any run (loss, duplication, any order, other samples in between, any
      fragment sizes, any times) the sample comes out exactly when the standing
      says it is due, and what comes out is the sample. */
  lemma {:induction false} EveryRunReassembles(
    bs: Buffers, g: Guid, sn: SeqNum, p: Bytes, s: Progress, es: seq<Event>, k: nat)
    requires BuffersOk(bs) && IsSample(p) && EventsOk(Key(g, ToU64(sn)), p, es) && Tracks(bs, Key(g, ToU64(sn)), p, s)
    requires k < |es|
    ensures SizesOk(es) && Outputs(bs, g, sn, p, es)[k] == if Due(p, s, es, k) then Some(p) else None
    decreases |es|
  {
    SizesAreOk(Key(g, ToU64(sn)), p, es);
    FedMoves(bs, g, sn, p, s, es[0]);
    if k == 0 {
      OutputsFirst(bs, g, sn, p, es);
    } else {
      OutputsLater(bs, g, sn, p, es, k);
      EveryRunReassembles(Fed(bs, g, sn, p, es[0]).0, g, sn, p, Moved(p, s, es[0]).0, es[1..], k - 1);
    }
  }

  lemma SizesAreOk(key: Key, p: Bytes, es: seq<Event>)
    requires EventsOk(key, p, es)
    ensures SizesOk(es)
  {
    forall j | 0 <= j < |es| && es[j].Own? ensures es[j].fs > 0 { assert EventOk(key, p, es[j]); }
  }

  // The sample's own indices among the events.
  function Indices(es: seq<Event>): set<nat> {
    set k | 0 <= k < |es| && es[k].Own? :: es[k].i
  }

  /** All of the sample's fragments have size fs, and no event comes later than
      STALE_AGE after one of them. */
  predicate InTime(es: seq<Event>, fs: nat, start: int) {
    forall k :: 0 <= k < |es| ==>
      es[k].now - start <= STALE_AGE && (es[k].Own? ==> es[k].fs == fs && es[k].now >= start)
  }

  function Gathered(s: Progress): set<nat> { if s.Held? then s.got else {} }

  // As long as an index is missing the set just grows.
  lemma {:induction false} Accumulates(p: Bytes, s: Progress, es: seq<Event>, fs: nat, start: int, k: nat)
    requires fs > 0 && InTime(es, fs, start) && (s.Held? ==> s.fs == fs && s.created >= start)
    requires k < |es| && !Complete(|p|, fs, Gathered(s) + Indices(es[..k]))
    ensures Due(p, s, es, k) <==> es[k].Own? && Complete(|p|, fs, Gathered(s) + Indices(es[..k + 1]))
    decreases k
  {
    var t := Moved(p, s, es[0]);
    if k == 0 {
      assert Indices(es[..0]) == {} && Indices(es[..1]) == if es[0].Own? then {es[0].i} else {};
      assert Gathered(s) + {} == Gathered(s) && Aged(s, es[0].now) == s;
    } else {
      IndicesSplit(es, k);
      IndicesSplit(es, k + 1);
      GrowsBy(p, s, es[0], fs, start, Gathered(s) + Indices(es[..k]));
      assert Gathered(t.0) + Indices(es[1..][..k - 1]) == Gathered(s) + Indices(es[..k]);
      assert Gathered(t.0) + Indices(es[1..][..k]) == Gathered(s) + Indices(es[..k + 1]);
      Accumulates(p, t.0, es[1..], fs, start, k - 1);
    }
  }

  lemma IndicesSplit(es: seq<Event>, k: nat)
    requires 0 < k <= |es|
    ensures Indices(es[..k]) == (if es[0].Own? then {es[0].i} else {}) + Indices(es[1..][..k - 1])
  {
    var a, b := es[..k], es[1..][..k - 1];
    assert forall j :: 0 <= j < k - 1 ==> b[j] == a[j + 1];
    forall x | x in Indices(a) ensures x in (if es[0].Own? then {es[0].i} else {}) + Indices(b) {
      var j :| 0 <= j < |a| && a[j].Own? && a[j].i == x;
      if j > 0 { assert b[j - 1] == a[j]; }
    }
    forall x | x in Indices(b) ensures x in Indices(a) {
      var j :| 0 <= j < |b| && b[j].Own? && b[j].i == x;
      assert a[j + 1] == b[j];
    }
  }

  lemma GrowsBy(p: Bytes, s: Progress, e: Event, fs: nat, start: int, all: set<nat>)
    requires fs > 0 && e.now - start <= STALE_AGE && (e.Own? ==> e.fs == fs && e.now >= start)
    requires s.Held? ==> s.fs == fs && s.created >= start
    requires Gathered(s) + (if e.Own? then {e.i} else {}) <= all && !Complete(|p|, fs, all)
    ensures var t := Moved(p, s, e).0;
      && (t.Held? ==> t.fs == fs && t.created >= start)
      && Gathered(t) == Gathered(s) + (if e.Own? then {e.i} else {})
  {
    assert Aged(s, e.now) == s;
  }

  /** Any order, any duplicates, other samples in between, inside the stale age:
      nothing comes out until the last distinct index arrives, and then exactly
      the sample does. */
  lemma {:induction false} AnyOrderReassembles(
    bs: Buffers, g: Guid, sn: SeqNum, p: Bytes, fs: u16, es: seq<Event>, start: int, k: nat)
    requires BuffersOk(bs) && IsSample(p) && fs > 0 && Key(g, ToU64(sn)) !in bs
    requires EventsOk(Key(g, ToU64(sn)), p, es) && InTime(es, fs, start)
    requires k < |es| && !Complete(|p|, fs, Indices(es[..k]))
    ensures Outputs(bs, g, sn, p, es)[k] ==
            if es[k].Own? && Complete(|p|, fs, Indices(es[..k + 1])) then Some(p) else None
  {
    EveryRunReassembles(bs, g, sn, p, Idle, es, k);
    assert Gathered(Idle) + Indices(es[..k]) == Indices(es[..k]);
    assert Gathered(Idle) + Indices(es[..k + 1]) == Indices(es[..k + 1]);
    Accumulates(p, Idle, es, fs, start, k);
  }

  /** A retransmission cut in another size is of no use to a reassembly in
      progress: the standing does not change however many of its fragments
      arrive before the reassembly goes stale. */
  lemma {:induction false} OtherSizesAreIgnored(p: Bytes, s: Progress, es: seq<Event>)
    requires SizesOk(es) && s.Held?
    requires forall k :: 0 <= k < |es| ==> es[k].Own? && es[k].fs != s.fs && es[k].now - s.created <= STALE_AGE
    ensures Standing(p, s, es) == s
    decreases |es|
  {
    if |es| > 0 { OtherSizesAreIgnored(p, s, es[1..]); }
  }
}
