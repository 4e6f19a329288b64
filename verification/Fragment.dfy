/// The splitting and reassembly of large samples (include/dds/rtps/fragment.hpp).

module Fragments {
  import opened Octets
  import opened Rtps

  const DEFAULT_SIZE: u16 := 1200
  const MAX_REASSEMBLY: nat := 0x100_0000
  const STALE_AGE: int := 5_000_000_000    // nanoseconds

  function Min(a: nat, b: nat): nat { if a < b then a else b }

  // How many fragments a sample takes.
  function Total(size: nat, fs: nat): nat
    requires fs > 0
  {
    if size == 0 then 0 else if size <= fs then 1 else 1 + Total(size - fs, fs)
  }

  // Dividing, rounding up.
  lemma {:induction false} TotalIsCeiling(size: nat, fs: nat)
    requires fs > 0
    ensures Total(size, fs) == (size + fs - 1) / fs
    decreases size
  {
    if size > fs {
      TotalIsCeiling(size - fs, fs);
      DivStep(size - 1, fs);
    } else if size > 0 {
      Grid(1, size + fs - 1, fs);
    } else {
      Grid(0, fs - 1, fs);
    }
  }

  lemma {:induction false} DivStep(a: nat, fs: nat)
    requires fs > 0
    ensures (a + fs) / fs == a / fs + 1
  {
    var q := a / fs;
    Grid(q, a, fs);
    assert (q + 1) * fs == q * fs + fs && (q + 2) * fs == (q + 1) * fs + fs;
    Grid(q + 1, a + fs, fs);
  }

  // ---- Arithmetic of the grid -------------------------------------------

  lemma MulUp(a: nat, b: nat, fs: nat)
    ensures a <= b ==> a * fs <= b * fs
    ensures a < b ==> (a + 1) * fs <= b * fs
  {
    if a < b { assert (b - a) * fs >= fs by { MulMono(1, b - a, fs); } assert b * fs == a * fs + (b - a) * fs; }
  }

  lemma MulMono(a: nat, b: nat, fs: nat)
    requires a <= b
    ensures a * fs <= b * fs
  {}

  // Fragment i covers the bytes [i * fs, (i + 1) * fs) of the sample.
  lemma {:induction false} Grid(i: nat, j: nat, fs: nat)
    requires fs > 0
    ensures j / fs == i <==> i * fs <= j < (i + 1) * fs
  {
    var q := j / fs;
    assert q * fs <= j < (q + 1) * fs;
    MulUp(q, i, fs);
    MulUp(i, q, fs);
  }

  // i * fs, by addition.
  function Start(i: nat, fs: nat): nat {
    if i == 0 then 0 else Start(i - 1, fs) + fs
  }

  lemma {:induction false} StartIsProduct(i: nat, fs: nat)
    ensures Start(i, fs) == i * fs
  {
    if i > 0 {
      StartIsProduct(i - 1, fs);
      assert i * fs == (i - 1) * fs + fs;
    }
  }

  lemma {:induction false} StartTotal(i: nat, size: nat, fs: nat)
    requires fs > 0
    ensures i < Total(size, fs) <==> Start(i, fs) < size
    decreases i
  {
    if i > 0 {
      StartStep(i, fs);
      if size > fs { StartTotal(i - 1, size - fs, fs); }
    }
  }

  lemma {:induction false} StartStep(i: nat, fs: nat)
    requires i > 0
    ensures Start(i, fs) == Start(i - 1, fs) + fs && Start(i, fs) >= fs
  {
    if i > 1 { StartStep(i - 1, fs); }
  }

  // ---- The splitter -----------------------------------------------------

  // Fragment i of a payload, counted from 0.
  function Piece(payload: Bytes, fs: nat, i: nat): Bytes
    requires fs > 0 && i < Total(|payload|, fs)
  {
    StartTotal(i, |payload|, fs);
    payload[Start(i, fs)..Min(Start(i, fs) + fs, |payload|)]
  }

  function FragAt(writer: EntityId, sn: SeqNum, payload: Bytes, fs: u16, i: nat): DataFrag
    requires fs > 0 && i < Total(|payload|, fs)
  {
    DataFrag(UNKNOWN, writer, sn, (i + 1) % U32, 1, fs, |payload| % U32, Piece(payload, fs, i))
  }

  // The fragments from byte `offset` on.
  function SplitFrom(writer: EntityId, sn: SeqNum, payload: Bytes, fs: u16, offset: nat, num: u32): seq<DataFrag>
    requires fs > 0
    decreases |payload| - offset
  {
    if offset >= |payload| then []
    else
      var end := Min(offset + fs, |payload|);
      [DataFrag(UNKNOWN, writer, sn, num, 1, fs, |payload| % U32, payload[offset..end])]
      + SplitFrom(writer, sn, payload, fs, end, (num + 1) % U32)
  }

  function Split(writer: EntityId, sn: SeqNum, payload: Bytes, fs: u16): seq<DataFrag>
    requires fs > 0
  {
    SplitFrom(writer, sn, payload, fs, 0, 1)
  }

  // The requested size, narrowed to 16 bits.
  function Narrowed(requested: int): u16 {
    if requested <= 0 then DEFAULT_SIZE else requested % U16
  }

  method SplitIntoFragments(writer: EntityId, sn: SeqNum, payload: Bytes, requested: int) returns (frags: seq<DataFrag>)
    requires |payload| > 0 ==> Narrowed(requested) > 0
    ensures frags == if |payload| == 0 then [] else Split(writer, sn, payload, Narrowed(requested))
  {
    var size := Narrowed(requested);
    frags := [];
    var offset: nat, fragNum: u32 := 0, 1;
    while offset < |payload|
      invariant offset <= |payload|
      invariant |payload| == 0 ==> frags == []
      invariant size > 0 ==>
                  frags + SplitFrom(writer, sn, payload, size, offset, fragNum) == Split(writer, sn, payload, size)
      decreases |payload| - offset
    {
      var end := offset + size;
      if end > |payload| { end := |payload|; }
      frags := frags + [DataFrag(UNKNOWN, writer, sn, fragNum, 1, size, |payload| % U32, payload[offset..end])];
      offset := end;
      fragNum := (fragNum + 1) % U32;
    }
  }

  function Joined(frags: seq<DataFrag>): Bytes {
    if |frags| == 0 then [] else frags[0].payload + Joined(frags[1..])
  }

  // Put end to end, the fragments are the payload.
  lemma {:induction false} SplitCovers(writer: EntityId, sn: SeqNum, payload: Bytes, fs: u16, offset: nat, num: u32)
    requires fs > 0 && offset <= |payload|
    ensures Joined(SplitFrom(writer, sn, payload, fs, offset, num)) == payload[offset..]
    decreases |payload| - offset
  {
    if offset < |payload| {
      var end := Min(offset + fs, |payload|);
      SplitCovers(writer, sn, payload, fs, end, (num + 1) % U32);
      assert payload[offset..] == payload[offset..end] + payload[end..];
    }
  }

  lemma NextStart(n: nat, size: nat, fs: nat)
    requires fs > 0 && n < Total(size, fs)
    ensures Start(n, fs) < size && Min(Start(n, fs) + fs, size) == Min(Start(n + 1, fs), size)
    ensures Start(n, fs) + fs < size <==> n + 1 < Total(size, fs)
  {
    StartTotal(n, size, fs);
    StartTotal(n + 1, size, fs);
  }

  // From fragment n on, there is one fragment per stretch of fs bytes...
  lemma {:induction false} SplitLength(
    writer: EntityId, sn: SeqNum, payload: Bytes, fs: u16, n: nat, offset: nat, num: u32)
    requires fs > 0 && n <= Total(|payload|, fs) && offset == Min(Start(n, fs), |payload|)
    ensures |SplitFrom(writer, sn, payload, fs, offset, num)| == Total(|payload|, fs) - n
    decreases Total(|payload|, fs) - n
  {
    StartTotal(n, |payload|, fs);
    if n < Total(|payload|, fs) {
      NextStart(n, |payload|, fs);
      SplitLength(writer, sn, payload, fs, n + 1, Min(offset + fs, |payload|), (num + 1) % U32);
    }
  }

  lemma NextNumber(n: nat)
    ensures (n + 2) % U32 == ((n + 1) % U32 + 1) % U32
  {}

  // ...and fragment i is the i-th stretch, numbered i + 1.
  lemma {:induction false} SplitIsGrid(
    writer: EntityId, sn: SeqNum, payload: Bytes, fs: u16, n: nat, offset: nat, i: nat)
    requires fs > 0 && n <= i < Total(|payload|, fs) && offset == Start(n, fs)
    ensures var frags := SplitFrom(writer, sn, payload, fs, offset, (n + 1) % U32);
      i - n < |frags| && frags[i - n] == FragAt(writer, sn, payload, fs, i)
    decreases i - n
  {
    NextStart(n, |payload|, fs);
    if n < i {
      NextNumber(n);
      SplitIsGrid(writer, sn, payload, fs, n + 1, offset + fs, i);
    }
  }

  // ---- The assembler ----------------------------------------------------

  datatype Key = Key(writer: Guid, seqNo: nat)

  datatype Buffer = Buffer(data: Bytes, mask: seq<bool>, received: nat, total: nat,
                           dataSize: nat, fragSize: nat, created: int)

  function Count(mask: seq<bool>): nat {
    if |mask| == 0 then 0 else Count(mask[..|mask| - 1]) + if mask[|mask| - 1] then 1 else 0
  }

  /** What every stored buffer satisfies: the counter is the number of indices
      marked, and at least one index is missing. */
  predicate BufferOk(b: Buffer) {
    && b.fragSize > 0 && b.dataSize > 0
    && b.total == Total(b.dataSize, b.fragSize)
    && |b.data| == b.dataSize && |b.mask| == b.total
    && b.received == Count(b.mask)
  }

  predicate Plausible(f: DataFrag) {
    f.fragSize != 0 && f.dataSize != 0 && f.count != 0 && f.dataSize <= MAX_REASSEMBLY
  }

  // 32-bit arithmetic, wrap-around included.
  function IndexAt(f: DataFrag, i: nat): nat { (f.start + U32 - 1 + i) % U32 }

  function OffsetAt(f: DataFrag, i: nat): nat { Start(IndexAt(f, i), f.fragSize) % U32 }

  function Chunk(payload: Bytes, from: nat, n: nat): Bytes {
    var to := Min(from + n, |payload|);
    if from < to then payload[from..to] else []
  }

  function ChunkAt(f: DataFrag, i: nat): Bytes { Chunk(f.payload, Start(i, f.fragSize), f.fragSize) }

  /** The fragment's own bytes, from turn i on, stay inside the buffer: what the
      unclipped copy and the unchecked mask index of the loop need. */
  predicate Fits(f: DataFrag, i: nat)
    requires f.fragSize > 0
    decreases f.count - i
  {
    i >= f.count || OffsetAt(f, i) >= f.dataSize ||
    (&& IndexAt(f, i) < Total(f.dataSize, f.fragSize)
     && OffsetAt(f, i) + |ChunkAt(f, i)| <= f.dataSize
     && Fits(f, i + 1))
  }

  function Spliced(data: Bytes, at: nat, chunk: Bytes): (r: Bytes)
    requires at + |chunk| <= |data|
    ensures |r| == |data|
  {
    data[..at] + chunk + data[at + |chunk|..]
  }

  function Marked(b: Buffer, idx: nat): Buffer
    requires idx < |b.mask|
  {
    if b.mask[idx] then b else b.(mask := b.mask[idx := true], received := b.received + 1)
  }

  predicate SameGeometry(b: Buffer, f: DataFrag) { b.dataSize == f.dataSize && b.fragSize == f.fragSize }

  // The copy loop from turn i on.
  function Absorb(b: Buffer, f: DataFrag, i: nat): (r: Buffer)
    requires BufferOk(b) && SameGeometry(b, f) && Fits(f, i)
    ensures BufferOk(r) && SameGeometry(r, f) && r.created == b.created
    decreases f.count - i
  {
    if i >= f.count || OffsetAt(f, i) >= f.dataSize then b
    else
      CountMarked(b.mask, IndexAt(f, i));
      Absorb(Marked(b.(data := Spliced(b.data, OffsetAt(f, i), ChunkAt(f, i))), IndexAt(f, i)), f, i + 1)
  }

  lemma {:induction false} CountMarked(mask: seq<bool>, k: nat)
    requires k < |mask|
    ensures Count(mask[k := true]) == Count(mask) + if mask[k] then 0 else 1
    decreases |mask|
  {
    var n := |mask| - 1;
    if k < n {
      CountMarked(mask[..n], k);
      assert mask[k := true][..n] == mask[..n][k := true];
    } else {
      assert mask[k := true][..n] == mask[..n];
    }
  }

  function NewBuffer(f: DataFrag, now: int): (b: Buffer)
    requires Plausible(f)
    ensures BufferOk(b) && SameGeometry(b, f)
  {
    var total := Total(f.dataSize, f.fragSize);
    NothingMarked(total);
    Buffer(seq(f.dataSize, _ => 0), seq(total, _ => false), 0, total, f.dataSize, f.fragSize, now)
  }

  lemma NothingMarked(n: nat)
    ensures Count(seq(n, _ => false)) == 0
  {
    if n > 0 {
      NothingMarked(n - 1);
      assert seq(n, _ => false)[..n - 1] == seq(n - 1, _ => false);
    }
  }

  type Buffers = map<Key, Buffer>

  predicate BuffersOk(bs: Buffers) {
    forall k :: k in bs ==> BufferOk(bs[k]) && bs[k].received < bs[k].total
  }

  function Swept(bs: Buffers, now: int): (r: Buffers)
    ensures BuffersOk(bs) ==> BuffersOk(r)
  {
    map k | k in bs && now - bs[k].created <= STALE_AGE :: bs[k]
  }

  function KeyOf(g: Guid, f: DataFrag): Key { Key(g, ToU64(f.seqNum)) }

  predicate Disagrees(bs: Buffers, g: Guid, f: DataFrag, now: int) {
    var live := Swept(bs, now);
    KeyOf(g, f) in live && !SameGeometry(live[KeyOf(g, f)], f)
  }

  predicate Safe(bs: Buffers, g: Guid, f: DataFrag, now: int) {
    !Plausible(f) || Disagrees(bs, g, f, now) || Fits(f, 0)
  }

  function Receive(bs: Buffers, g: Guid, f: DataFrag, now: int): (r: (Buffers, Option<Bytes>))
    requires BuffersOk(bs) && Safe(bs, g, f, now)
    ensures BuffersOk(r.0)
  {
    if !Plausible(f) then (bs, None)
    else
      var key, live := KeyOf(g, f), Swept(bs, now);
      if Disagrees(bs, g, f, now) then (live, None)
      else
        Settled(live, key, Absorb(if key in live then live[key] else NewBuffer(f, now), f, 0))
  }

  // Hands the sample over once no index is missing.
  function Settled(live: Buffers, key: Key, b: Buffer): (r: (Buffers, Option<Bytes>))
    requires BuffersOk(live) && BufferOk(b)
    ensures BuffersOk(r.0)
  {
    if b.received >= b.total then (live - {key}, Some(b.data)) else (live[key := b], None)
  }

  class FragmentAssembler {
    var buffers: Buffers

    predicate Valid() reads this { BuffersOk(buffers) }

    constructor ()
      ensures Valid() && buffers == map[]
    {
      buffers := map[];
    }

    // Evicts the reassemblies that began more than STALE_AGE ago.
    method Sweep(now: int)
      requires Valid()
      modifies this
      ensures Valid() && buffers == Swept(old(buffers), now)
    {
      ghost var was := buffers;
      var todo := buffers.Keys;
      while todo != {}
        invariant todo <= buffers.Keys
        invariant buffers == map k | k in was && (k in todo || now - was[k].created <= STALE_AGE) :: was[k]
        decreases |todo|
      {
        var k :| k in todo;
        if now - buffers[k].created > STALE_AGE { buffers := buffers - {k}; }
        todo := todo - {k};
      }
    }

    method ReceiveFragment(g: Guid, f: DataFrag, now: int) returns (done: Option<Bytes>)
      requires Valid() && Safe(buffers, g, f, now)
      modifies this
      ensures Valid() && (buffers, done) == Receive(old(buffers), g, f, now)
    {
      if f.fragSize == 0 || f.dataSize == 0 || f.count == 0 { return None; }
      if f.dataSize > MAX_REASSEMBLY { return None; }
      var key := Key(g, ToU64(f.seqNum));
      Sweep(now);
      var b: Buffer;
      if key in buffers {
        b := buffers[key];
        if f.dataSize != b.dataSize || f.fragSize != b.fragSize { return None; }
      } else {
        b := NewBuffer(f, now);
      }
      b := CopyIn(b, f);
      if b.received >= b.total {
        buffers := buffers - {key};
        return Some(b.data);
      }
      buffers := buffers[key := b];
      return None;
    }

    static method CopyIn(b0: Buffer, f: DataFrag) returns (b: Buffer)
      requires BufferOk(b0) && SameGeometry(b0, f) && Fits(f, 0)
      ensures b == Absorb(b0, f, 0)
    {
      b := b0;
      var i := 0;
      while i < f.count
        invariant i <= f.count && BufferOk(b) && SameGeometry(b, f) && Fits(f, i)
        invariant Absorb(b0, f, 0) == Absorb(b, f, i)
      {
        var idx, offset, from := Place(f, i);
        if offset >= f.dataSize { break; }
        CountMarked(b.mask, idx);
        b := CopyOne(b, f.payload, from, f.fragSize, idx, offset);
        i := i + 1;
      }
    }

    // The 32-bit arithmetic of one turn.
    static method Place(f: DataFrag, i: nat) returns (idx: nat, offset: nat, from: nat)
      ensures idx == IndexAt(f, i) && offset == OffsetAt(f, i) && from == Start(i, f.fragSize)
    {
      idx := (f.start + U32 - 1 + i) % U32;
      StartIsProduct(idx, f.fragSize);
      StartIsProduct(i, f.fragSize);
      offset := idx * f.fragSize % U32;
      from := i * f.fragSize;
    }

    static method CopyOne(b0: Buffer, payload: Bytes, from: nat, fs: nat, idx: nat, offset: nat) returns (b: Buffer)
      requires offset + |Chunk(payload, from, fs)| <= |b0.data| && idx < |b0.mask|
      ensures b == Marked(b0.(data := Spliced(b0.data, offset, Chunk(payload, from, fs))), idx)
    {
      b := b0;
      var to := from + fs;
      if to > |payload| { to := |payload|; }
      if from < to {
        b := b.(data := b.data[..offset] + payload[from..to] + b.data[offset + (to - from)..]);
      } else {
        assert Spliced(b0.data, offset, Chunk(payload, from, fs)) == b0.data;
      }
      if !b.mask[idx] {
        b := b.(mask := b.mask[idx := true], received := b.received + 1);
      }
    }
  }
}
