/// The writer's bounded history (include/dds/rtps/history_cache.hpp).

module History {
  import opened Octets

  datatype Change = Change(sn: nat, payload: Bytes)

  // A FIFO of at most `depth` changes.
  function Stored(h: seq<Change>, depth: nat, c: Change): seq<Change> {
    var g := h + [c];
    if |g| > depth then g[1..] else g
  }

  function Find(h: seq<Change>, sn: nat): Option<Change> {
    if h == [] then None
    else if h[0].sn == sn then Some(h[0])
    else Find(h[1..], sn)
  }

  // The last min(depth, |written|) writes; write number i carries SN i + 1.
  ghost predicate IsTail(h: seq<Change>, depth: nat, written: seq<Bytes>) {
    && |h| == (if |written| < depth then |written| else depth)
    && forall i :: 0 <= i < |h| ==>
         && h[i].sn == |written| - |h| + 1 + i
         && h[i].payload == written[h[i].sn - 1]
  }

  predicate Retained(h: seq<Change>, sn: nat) {
    h != [] && h[0].sn <= sn <= h[|h| - 1].sn
  }

  // Storing the next write keeps the history a contiguous tail.
  lemma StoreKeepsTail(h: seq<Change>, depth: nat, written: seq<Bytes>, payload: Bytes)
    requires depth >= 1 && IsTail(h, depth, written)
    ensures IsTail(Stored(h, depth, Change(|written| + 1, payload)), depth, written + [payload])
  {}

  lemma {:induction false} GetScans(h: seq<Change>, sn: nat, i: nat)
    requires i < |h| && h[i].sn == sn
    requires forall j :: 0 <= j < i ==> h[j].sn != sn
    ensures Find(h, sn) == Some(h[i])
  {
    if i > 0 {
      GetScans(h[1..], sn, i - 1);
    }
  }

  lemma {:induction false} GetMisses(h: seq<Change>, sn: nat)
    requires forall j :: 0 <= j < |h| ==> h[j].sn != sn
    ensures Find(h, sn) == None
  {
    if h != [] {
      GetMisses(h[1..], sn);
    }
  }

  // Looking up a sequence number finds what was written under it, exactly for
  // the retained numbers.
  lemma GetIsExact(h: seq<Change>, depth: nat, written: seq<Bytes>, sn: nat)
    requires IsTail(h, depth, written)
    ensures Retained(h, sn) ==> 1 <= sn <= |written| && Find(h, sn) == Some(Change(sn, written[sn - 1]))
    ensures !Retained(h, sn) ==> Find(h, sn) == None
  {
    if Retained(h, sn) {
      var i := sn - h[0].sn;
      assert h[i].sn == sn;
      GetScans(h, sn, i);
    } else {
      GetMisses(h, sn);
    }
  }

  class HistoryCache {
    const depth: nat
    var changes: seq<Change>

    constructor (depth: nat)
      ensures changes == [] && this.depth == if depth > 0 then depth else 1
    {
      this.depth := if depth > 0 then depth else 1;
      changes := [];
    }

    method Store(c: Change)
      modifies this
      ensures changes == Stored(old(changes), depth, c)
    {
      changes := changes + [c];
      if |changes| > depth {
        changes := changes[1..];
      }
    }

    method Get(sn: nat) returns (r: Option<Change>)
      ensures r == Find(changes, sn)
    {
      var i := 0;
      while i < |changes|
        invariant 0 <= i <= |changes|
        invariant forall j :: 0 <= j < i ==> changes[j].sn != sn
      {
        if changes[i].sn == sn {
          GetScans(changes, sn, i);
          return Some(changes[i]);
        }
        i := i + 1;
      }
      GetMisses(changes, sn);
      r := None;
    }

    method Span() returns (first: nat, last: nat)
      ensures changes == [] ==> first == 0 && last == 0
      ensures changes != [] ==> first == changes[0].sn && last == changes[|changes| - 1].sn
    {
      if changes == [] {
        return 0, 0;
      }
      return changes[0].sn, changes[|changes| - 1].sn;
    }
  }
}
