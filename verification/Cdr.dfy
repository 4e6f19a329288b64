/// The CDR encoder and decoder the generated code runs on (src/cdr/cdr.cpp).

module Cdr {
  import opened Octets

  /** Values of the generated C++ types.  Floats are their bit patterns; a
      vector and an array are both lists. */
  datatype Val =
    | VBool(b: bool)
    | VInt(n: int)
    | VStr(s: Bytes)
    | VList(vs: seq<Val>)
    | VStruct(names: seq<string>, fields: seq<Val>)

  datatype Prim =
    | PBool | POctet | PShort | PUShort | PLong | PULong
    | PLongLong | PULongLong | PFloat | PDouble | PString

  // Two's complement.
  function Wrapped(n: int, k: nat): nat
    requires 0 <= n + Pow256(k)
  {
    if n < 0 then n + Pow256(k) else n
  }

  function Width(p: Prim): nat {
    match p
    case PBool => 1 case POctet => 1
    case PShort => 2 case PUShort => 2
    case PLong => 4 case PULong => 4 case PFloat => 4 case PString => 4
    case PLongLong => 8 case PULongLong => 8 case PDouble => 8
  }

  predicate IsSigned(p: Prim) { p == PShort || p == PLong || p == PLongLong }

  // What the C++ type of a primitive holds.
  predicate PrimOk(p: Prim, v: Val) {
    match p
    case PBool => v.VBool?
    case PString => v.VStr? && |v.s| + 1 < Pow256(4)
    case _ =>
      && v.VInt?
      && if IsSigned(p) then 0 <= 2 * v.n + Pow256(Width(p)) < 2 * Pow256(Width(p)) else 0 <= v.n < Pow256(Width(p))
  }

  // ---- What one write appends and one read takes ------------------------

  function Pad(len: nat, n: nat): nat
    requires n > 0
  {
    (n - len % n) % n
  }

  function Aligned(buf: Bytes, n: nat): (r: Bytes)
    requires n > 0
    ensures |r| == |buf| + Pad(|buf|, n) && buf <= r
  {
    buf + seq(Pad(|buf|, n), _ => 0)
  }

  // align(width), then the value; single bytes need no alignment.
  function PutNumber(buf: Bytes, n: nat, k: nat): (r: Bytes)
    requires k > 0
    ensures buf <= r
  {
    Aligned(buf, k) + LE(n, k)
  }

  function PutPrim(buf: Bytes, p: Prim, v: Val): (r: Bytes)
    requires PrimOk(p, v)
    ensures buf <= r
  {
    match p
    case PBool => buf + [if v.b then 1 else 0]
    case PString => PutNumber(buf, |v.s| + 1, 4) + v.s + [0]
    case _ => PutNumber(buf, Wrapped(v.n, Width(p)), Width(p))
  }

  predicate AreOctets(vs: seq<Val>) { forall i :: 0 <= i < |vs| ==> PrimOk(POctet, vs[i]) }

  function OctetOf(v: Val): octet
    requires PrimOk(POctet, v)
  {
    assert Pow256(1) == 256;
    v.n
  }

  function OctetsOf(vs: seq<Val>): (bs: Bytes)
    requires AreOctets(vs)
    ensures |bs| == |vs|
  {
    seq(|vs|, i requires 0 <= i < |vs| => OctetOf(vs[i]))
  }

  function ListOf(bs: Bytes): seq<Val> {
    seq(|bs|, i requires 0 <= i < |bs| => VInt(bs[i]))
  }

  function PutBytes(buf: Bytes, vs: seq<Val>): (r: Bytes)
    requires AreOctets(vs)
    ensures buf <= r
  {
    PutNumber(buf, |vs| % Pow256(4), 4) + OctetsOf(vs)
  }

  function GetNumber(data: Bytes, pos: nat, k: nat): Option<(nat, nat)>
    requires k > 0
  {
    var at := pos + Pad(pos, k);
    if at + k > |data| then None else Some((UnLE(data[at..at + k]), at + k))
  }

  function Unwrapped(u: nat, p: Prim): int {
    if IsSigned(p) && 2 * u >= Pow256(Width(p)) then u - Pow256(Width(p)) else u
  }

  function GetPrim(data: Bytes, pos: nat, p: Prim): Option<(Val, nat)> {
    match p
    case PBool => if pos + 1 > |data| then None else Some((VBool(data[pos] != 0), pos + 1))
    case PString =>
      (match GetNumber(data, pos, 4)
       case None => None
       case Some((n, at)) =>
         if n == 0 then Some((VStr([]), at))
         else if at + n > |data| then None
         else if data[at + n - 1] == 0 then Some((VStr(data[at..at + n - 1]), at + n))
         else Some((VStr(data[at..at + n]), at + n)))
    case _ =>
      match GetNumber(data, pos, Width(p))
      case None => None
      case Some((u, at)) => Some((VInt(Unwrapped(u, p)), at))
  }

  function GetBytes(data: Bytes, pos: nat): Option<(Val, nat)> {
    match GetNumber(data, pos, 4)
    case None => None
    case Some((n, at)) => if at + n > |data| then None else Some((VList(ListOf(data[at..at + n])), at + n))
  }

  // ---- Where the bytes stand --------------------------------------------

  lemma {:induction false} ByteOfLE(n: nat, k: nat, i: nat)
    requires i < k
    ensures LE(n, k)[i] == n / Pow256(i) % 256
  {
    if i > 0 {
      ByteOfLE(n / 256, k - 1, i - 1);
      DivTwice(n, Pow256(i - 1));
    }
  }

  /** Alignment: the next multiple of the width, at most width - 1 zeros on. */
  lemma AlignedIsMultiple(buf: Bytes, n: nat)
    requires n > 0
    ensures var r := Aligned(buf, n);
      && |r| % n == 0 && |buf| <= |r| < |buf| + n && r[..|buf|] == buf
      && forall i :: |buf| <= i < |r| ==> r[i] == 0
  {
    PadFills(|buf|, n);
  }

  lemma PadFills(len: nat, n: nat)
    requires n > 0
    ensures Pad(len, n) < n && (len + Pad(len, n)) % n == 0
  {
    var q, m := len / n, len % n;
    assert len == q * n + m;
    if m == 0 {
      QuotientIs(n, n, 1, 0);
    } else {
      QuotientIs(n - m, n, 0, n - m);
      QuotientIs(len + (n - m), n, q + 1, 0);
    }
  }

  /** r is buf, zeros up to a multiple of k, and the k bytes of n in two's
      complement, lowest first. */
  predicate AppendsNumber(buf: Bytes, r: Bytes, n: int, k: nat)
    requires k > 0
  {
    var at := |r| - k;
    && |buf| <= at < |buf| + k && at % k == 0 && r[..|buf|] == buf
    && (forall i :: |buf| <= i < at ==> r[i] == 0)
    && forall i: nat :: i < k ==> r[at + i] == (if n < 0 then n + Pow256(k) else n) / Pow256(i) % 256
  }

  lemma NumberIsAppended(buf: Bytes, n: int, k: nat)
    requires k > 0 && 0 <= n + Pow256(k)
    ensures AppendsNumber(buf, PutNumber(buf, Wrapped(n, k), k), n, k)
  {
    var a, r := Aligned(buf, k), PutNumber(buf, Wrapped(n, k), k);
    AlignedIsMultiple(buf, k);
    assert r[..|buf|] == a[..|buf|];
    forall i: nat | i < k ensures r[|a| + i] == Wrapped(n, k) / Pow256(i) % 256 {
      ByteOfLE(Wrapped(n, k), k, i);
      assert r[|a| + i] == LE(Wrapped(n, k), k)[i];
    }
  }

  /** Every primitive in its place: one byte, or two, four or eight at a multiple
      of that; a string as its length with the closing zero, then its bytes. */
  lemma PrimLayout(buf: Bytes, p: Prim, v: Val)
    requires PrimOk(p, v)
    ensures var r := PutPrim(buf, p, v);
      match p
      case PBool => r == buf + [if v.b then 1 else 0]
      case POctet => AppendsNumber(buf, r, v.n, 1)
      case PShort => AppendsNumber(buf, r, v.n, 2)
      case PUShort => AppendsNumber(buf, r, v.n, 2)
      case PLong => AppendsNumber(buf, r, v.n, 4)
      case PULong => AppendsNumber(buf, r, v.n, 4)
      case PFloat => AppendsNumber(buf, r, v.n, 4)
      case PLongLong => AppendsNumber(buf, r, v.n, 8)
      case PULongLong => AppendsNumber(buf, r, v.n, 8)
      case PDouble => AppendsNumber(buf, r, v.n, 8)
      case PString =>
        var n := |v.s| + 1;
        && |r| >= n && AppendsNumber(buf, r[..|r| - n], n, 4) && r[|r| - n..] == v.s + [0]
  {
    hide AppendsNumber;
    if p.PString? {
      NumberIsAppended(buf, |v.s| + 1, 4);
      var h, r := PutNumber(buf, |v.s| + 1, 4), PutPrim(buf, p, v);
      assert r == h + (v.s + [0]);
      assert r[..|h|] == h && r[|h|..] == v.s + [0];
    } else if !p.PBool? {
      NumberIsAppended(buf, v.n, Width(p));
    }
  }

  /** A byte sequence is its count in four bytes, then its bytes. */
  lemma BytesLayout(buf: Bytes, vs: seq<Val>)
    requires AreOctets(vs)
    ensures var r, n := PutBytes(buf, vs), |vs|;
      && |r| >= n && AppendsNumber(buf, r[..|r| - n], n % Pow256(4), 4)
      && forall i :: 0 <= i < n ==> r[|r| - n + i] == vs[i].n
  {
    hide AppendsNumber;
    NumberIsAppended(buf, |vs| % Pow256(4), 4);
    var h := PutNumber(buf, |vs| % Pow256(4), 4);
    assert PutBytes(buf, vs)[..|h|] == h;
  }

  // ---- What is read from any bytes --------------------------------------

  // The first multiple of k from pos on.
  function NextMultiple(pos: nat, k: nat): nat
    requires k > 0
  {
    pos + (k - 1) - (pos + (k - 1)) % k
  }

  lemma PadReaches(pos: nat, k: nat)
    requires k > 0
    ensures pos + Pad(pos, k) == NextMultiple(pos, k)
  {
    PadFills(pos, k);
    var at := pos + Pad(pos, k);
    var q := at / k;
    assert at == q * k;
    QuotientIs(pos + k - 1, k, q, k - 1 - Pad(pos, k));
  }

  // The k bytes at `at` hold n in two's complement, lowest first.
  predicate HoldsNumber(data: Bytes, at: nat, k: nat, signed: bool, n: int)
    requires at + k <= |data|
  {
    && (if signed then 0 <= 2 * n + Pow256(k) < 2 * Pow256(k) else 0 <= n < Pow256(k))
    && forall i: nat :: i < k ==> data[at + i] == (if n < 0 then n + Pow256(k) else n) / Pow256(i) % 256
  }

  /** r is the number that the k bytes at the next multiple of k hold and the place
      behind them; none if they are not all there. */
  predicate ReadsNumber(data: Bytes, pos: nat, r: Option<(Val, nat)>, k: nat, signed: bool)
    requires k > 0
  {
    var at := NextMultiple(pos, k);
    if at + k > |data| then r == None
    else
      && r.Some? && r.value.0.VInt? && r.value.1 == at + k
      && HoldsNumber(data, at, k, signed, r.value.0.n)
  }

  lemma NumberIsRead(data: Bytes, pos: nat, p: Prim)
    requires !p.PBool? && !p.PString?
    ensures ReadsNumber(data, pos, GetPrim(data, pos, p), Width(p), IsSigned(p))
  {
    hide Pad, NextMultiple, Unwrapped, HoldsNumber, UnLE, Pow256, IsSigned;
    var k := Width(p);
    PadReaches(pos, k);
    var at := NextMultiple(pos, k);
    if at + k <= |data| { NumberIsHeld(data, at, p); }
  }

  lemma NumberIsHeld(data: Bytes, at: nat, p: Prim)
    requires at + Width(p) <= |data|
    ensures HoldsNumber(data, at, Width(p), IsSigned(p), Unwrapped(UnLE(data[at..at + Width(p)]), p))
  {
    hide Width, IsSigned, Unwrapped, UnLE, Pow256;
    BytesHold(data, at, Width(p));
    WrapInverts(UnLE(data[at..at + Width(p)]), p);
  }

  lemma BytesHold(data: Bytes, at: nat, k: nat)
    requires at + k <= |data|
    ensures var u := UnLE(data[at..at + k]);
      u < Pow256(k) && forall i: nat :: i < k ==> data[at + i] == u / Pow256(i) % 256
  {
    var bs := data[at..at + k];
    LEInverts(bs);
    forall i: nat | i < k ensures data[at + i] == UnLE(bs) / Pow256(i) % 256 {
      assert data[at + i] == bs[i];
      ByteOfLE(UnLE(bs), k, i);
    }
  }

  lemma WrapInverts(u: nat, p: Prim)
    requires u < Pow256(Width(p))
    ensures var n := Unwrapped(u, p);
      && u == (if n < 0 then n + Pow256(Width(p)) else n)
      && if IsSigned(p) then 0 <= 2 * n + Pow256(Width(p)) < 2 * Pow256(Width(p)) else n == u < Pow256(Width(p))
  {}

  lemma CountIsRead(data: Bytes, pos: nat)
    ensures var at := NextMultiple(pos, 4);
      GetNumber(data, pos, 4) == if at + 4 > |data| then None else Some((Four(data, at), at + 4))
  {
    PadReaches(pos, 4);
    var at := NextMultiple(pos, 4);
    if at + 4 <= |data| {
      var bs := data[at..at + 4];
      LEInverts(bs);
      PowerOfFour();
      FourAt(data, at, UnLE(bs));
    }
  }

  lemma PowerOfFour()
    ensures Pow256(4) == 0x1_0000_0000
  {
    assert Pow256(2) == 0x1_0000;
  }

  /** Every read, on any bytes: a truth value is one byte, a number stands at the
      next multiple of its width, a string is a count and that many bytes without
      the last if it is zero; nothing is read unless all of it is there. */
  lemma PrimIsRead(data: Bytes, pos: nat, p: Prim)
    ensures var r := GetPrim(data, pos, p);
      match p
      case PBool => r == if pos < |data| then Some((VBool(data[pos] != 0), pos + 1)) else None
      case POctet => r == if pos < |data| then Some((VInt(data[pos]), pos + 1)) else None
      case PShort => ReadsNumber(data, pos, r, 2, true)
      case PUShort => ReadsNumber(data, pos, r, 2, false)
      case PLong => ReadsNumber(data, pos, r, 4, true)
      case PULong => ReadsNumber(data, pos, r, 4, false)
      case PFloat => ReadsNumber(data, pos, r, 4, false)
      case PLongLong => ReadsNumber(data, pos, r, 8, true)
      case PULongLong => ReadsNumber(data, pos, r, 8, false)
      case PDouble => ReadsNumber(data, pos, r, 8, false)
      case PString =>
        var at := NextMultiple(pos, 4) + 4;
        if at > |data| || at + Four(data, at - 4) > |data| then r == None
        else
          var n := Four(data, at - 4);
          var bs := data[at..at + n];
          r == Some((VStr(if n > 0 && bs[n - 1] == 0 then bs[..n - 1] else bs), at + n))
  {
    hide ReadsNumber, GetNumber, NextMultiple, Four;
    if p.POctet? {
      OctetIsRead(data, pos);
    } else if p.PString? {
      StringIsRead(data, pos);
    } else if !p.PBool? {
      NumberIsRead(data, pos, p);
    }
  }

  lemma OctetIsRead(data: Bytes, pos: nat)
    ensures GetPrim(data, pos, POctet) == if pos < |data| then Some((VInt(data[pos]), pos + 1)) else None
  {
    PadFills(pos, 1);
    if pos < |data| {
      var bs := data[pos..pos + 1];
      assert bs[1..] == [] && UnLE(bs) == data[pos];
    }
  }

  lemma StringIsRead(data: Bytes, pos: nat)
    ensures var at := NextMultiple(pos, 4) + 4;
      GetPrim(data, pos, PString) ==
        if at > |data| || at + Four(data, at - 4) > |data| then None
        else
          var n := Four(data, at - 4);
          var bs := data[at..at + n];
          Some((VStr(if n > 0 && bs[n - 1] == 0 then bs[..n - 1] else bs), at + n))
  {
    hide GetNumber, NextMultiple, Four;
    CountIsRead(data, pos);
    var at := NextMultiple(pos, 4) + 4;
    if at <= |data| && at + Four(data, at - 4) <= |data| {
      var n := Four(data, at - 4);
      if n > 0 { assert data[at..at + n][..n - 1] == data[at..at + n - 1]; }
    }
  }

  /** A byte sequence is a count and that many bytes, if they are all there. */
  lemma BytesAreRead(data: Bytes, pos: nat)
    ensures var at := NextMultiple(pos, 4) + 4;
      var r := GetBytes(data, pos);
      if at > |data| || at + Four(data, at - 4) > |data| then r == None
      else
        var n := Four(data, at - 4);
        && r.Some? && r.value.1 == at + n && r.value.0.VList? && |r.value.0.vs| == n
        && forall i :: 0 <= i < n ==> r.value.0.vs[i] == VInt(data[at + i])
  {
    hide GetNumber, NextMultiple, Four;
    CountIsRead(data, pos);
  }

  // ---- Reading back what was written ------------------------------------

  lemma NumberRoundTrip(pre: Bytes, n: nat, k: nat, data: Bytes)
    requires k > 0 && n < Pow256(k) && PutNumber(pre, n, k) <= data
    ensures GetNumber(data, |pre|, k) == Some((n, |PutNumber(pre, n, k)|))
  {
    var at := |pre| + Pad(|pre|, k);
    var w := PutNumber(pre, n, k);
    assert data[at..at + k] == w[at..at + k] == LE(n, k);
    UnLEInverts(n, k);
  }

  lemma StringRoundTrip(pre: Bytes, s: Bytes, data: Bytes)
    requires |s| + 1 < Pow256(4) && PutNumber(pre, |s| + 1, 4) + s + [0] <= data
    ensures var h := |PutNumber(pre, |s| + 1, 4)|;
      && GetNumber(data, |pre|, 4) == Some((|s| + 1, h)) && h + |s| + 1 <= |data|
      && data[h..h + |s|] == s && data[h + |s|] == 0
  {
    var h := PutNumber(pre, |s| + 1, 4);
    var w := h + s + [0];
    assert h <= w;
    NumberRoundTrip(pre, |s| + 1, 4, data);
    assert data[|h|..|h| + |s|] == w[|h|..|h| + |s|] == s;
    assert data[|h| + |s|] == w[|h| + |s|] == 0;
  }

  lemma UnwrapInverts(p: Prim, v: Val)
    requires PrimOk(p, v) && !p.PBool? && !p.PString?
    ensures Wrapped(v.n, Width(p)) < Pow256(Width(p)) && Unwrapped(Wrapped(v.n, Width(p)), p) == v.n
  {}

  lemma PrimRoundTrip(pre: Bytes, p: Prim, v: Val, data: Bytes)
    requires PrimOk(p, v) && PutPrim(pre, p, v) <= data
    ensures GetPrim(data, |pre|, p) == Some((v, |PutPrim(pre, p, v)|))
  {
    if p.PBool? {
      assert data[|pre|] == PutPrim(pre, p, v)[|pre|];
    } else if p.PString? {
      StringRoundTrip(pre, v.s, data);
    } else {
      UnwrapInverts(p, v);
      NumberRoundTrip(pre, Wrapped(v.n, Width(p)), Width(p), data);
    }
  }

  lemma BytesRoundTrip(pre: Bytes, vs: seq<Val>, data: Bytes)
    requires AreOctets(vs) && |vs| < Pow256(4) && PutBytes(pre, vs) <= data
    ensures GetBytes(data, |pre|) == Some((VList(vs), |PutBytes(pre, vs)|))
  {
    var h, w := PutNumber(pre, |vs|, 4), PutBytes(pre, vs);
    assert h <= w;
    NumberRoundTrip(pre, |vs|, 4, data);
    assert data[|h|..|h| + |vs|] == w[|h|..|h| + |vs|] == OctetsOf(vs);
    assert ListOf(OctetsOf(vs)) == vs;
  }

  // ---- The classes ------------------------------------------------------

  const HEADER: Bytes := [1, 0, 0, 0]

  function Scheme(data: Bytes): nat
    requires |data| >= 2
  {
    data[0] as int + data[1] as int * 256
  }

  // The encapsulation header must name little- or big-endian CDR.
  predicate Accepts(data: Bytes) {
    |data| >= 4 && (Scheme(data) == 1 || Scheme(data) == 0)
  }

  class Encoder {
    var buf: Bytes

    constructor ()
      ensures buf == HEADER
    {
      buf := HEADER;
    }

    method Align(n: nat)
      requires n > 0
      modifies this
      ensures buf == Aligned(old(buf), n)
    {
      var pad := (n - |buf| % n) % n;
      buf := buf + seq(pad, _ => 0);
    }

    // append_le: the low k bytes of n, lowest first.
    method AppendLE(n: nat, k: nat)
      modifies this
      ensures buf == old(buf) + LE(n, k)
    {
      var v, i := n, 0;
      while i < k
        invariant 0 <= i <= k
        invariant buf + LE(v, k - i) == old(buf) + LE(n, k)
      {
        assert LE(v, k - i) == [v % 256] + LE(v / 256, k - i - 1);
        buf := buf + [v % 256];
        v := v / 256;
        i := i + 1;
      }
    }

    method WriteNumber(n: nat, k: nat)
      requires k > 0
      modifies this
      ensures buf == PutNumber(old(buf), n, k)
    {
      Align(k);
      AppendLE(n, k);
    }

    method WritePrim(p: Prim, v: Val)
      requires PrimOk(p, v)
      modifies this
      ensures buf == PutPrim(old(buf), p, v)
    {
      match p
      case PBool => buf := buf + [if v.b then 1 else 0];
      case PString =>
        WriteNumber(|v.s| + 1, 4);
        buf := buf + v.s;
        buf := buf + [0];
      case _ => WriteNumber(Wrapped(v.n, Width(p)), Width(p));
    }

    method WriteBytes(vs: seq<Val>)
      requires AreOctets(vs)
      modifies this
      ensures buf == PutBytes(old(buf), vs)
    {
      WriteNumber(|vs| % Pow256(4), 4);
      buf := buf + OctetsOf(vs);
    }
  }

  class Decoder {
    const data: Bytes
    var pos: nat

    static method Create(data: Bytes) returns (d: Option<Decoder>)
      ensures d.Some? <==> Accepts(data)
      ensures d.Some? ==> fresh(d.value) && d.value.data == data && d.value.pos == 4
    {
      if |data| < 4 { return None; }
      if Scheme(data) != 1 && Scheme(data) != 0 { return None; }
      var dec := new Decoder(data);
      d := Some(dec);
    }

    constructor (data: Bytes)
      ensures this.data == data && pos == 4
    {
      this.data := data;
      pos := 4;
    }

    method Align(n: nat)
      requires n > 0
      modifies this
      ensures pos == old(pos) + Pad(old(pos), n)
    {
      var pad := (n - pos % n) % n;
      pos := pos + pad;
    }

    method ReadNumber(k: nat) returns (r: Option<nat>)
      requires k > 0
      modifies this
      ensures match GetNumber(data, old(pos), k)
        case None => r == None
        case Some((n, at)) => r == Some(n) && pos == at
    {
      Align(k);
      if pos + k > |data| { return None; }
      r := Some(UnLE(data[pos..pos + k]));
      pos := pos + k;
    }

    method ReadPrim(p: Prim) returns (r: Option<Val>)
      modifies this
      ensures match GetPrim(data, old(pos), p)
        case None => r == None
        case Some((v, at)) => r == Some(v) && pos == at
    {
      match p {
        case PBool =>
          if pos + 1 > |data| { return None; }
          r := Some(VBool(data[pos] != 0));
          pos := pos + 1;
        case PString =>
          var n := ReadNumber(4);
          if n.None? { return None; }
          if n.value == 0 { return Some(VStr([])); }
          if pos + n.value > |data| { return None; }
          var start, len := pos, n.value;
          pos := pos + len;
          if data[start + len - 1] == 0 { len := len - 1; }
          r := Some(VStr(data[start..start + len]));
        case _ =>
          var u := ReadNumber(Width(p));
          if u.None? { return None; }
          r := Some(VInt(Unwrapped(u.value, p)));
      }
    }

    method ReadBytes() returns (r: Option<Val>)
      modifies this
      ensures match GetBytes(data, old(pos))
        case None => r == None
        case Some((v, at)) => r == Some(v) && pos == at
    {
      var n := ReadNumber(4);
      if n.None? { return None; }
      if pos + n.value > |data| { return None; }
      r := Some(VList(ListOf(data[pos..pos + n.value])));
      pos := pos + n.value;
    }
  }
}
