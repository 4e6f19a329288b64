module Atoms {
  // What a generated marshal leaves in the buffer (src/idl/gen.cpp,
  // src/cdr/cdr.cpp), as a flat list: the primitive values of a structure in
  // the order of its fields, each written at its own alignment.

  import opened Octets
  import opened Cdr
  import opened Idl
  import opened Codegen

  datatype Atom = Atom(p: Prim, v: Val)

  predicate AtomsOk(xs: seq<Atom>) { forall i :: 0 <= i < |xs| ==> PrimOk(xs[i].p, xs[i].v) }

  // One after another.
  function PutAtoms(buf: Bytes, xs: seq<Atom>): Bytes
    requires AtomsOk(xs)
    decreases |xs|
  {
    if |xs| == 0 then buf else PutAtoms(PutPrim(buf, xs[0].p, xs[0].v), xs[1..])
  }

  /** A sequence is its count and its elements, octets like any other; an array
      its elements alone; an enum a long; a struct its fields. */
  function AtomsOf(m: Module, ts: TypeSpec, v: Val): (xs: seq<Atom>)
    requires HasType(m, ts, v)
    ensures AtomsOk(xs)
    decreases v, 1
  {
    match Resolve(m, ts)
    case Primitive(p) => [Atom(p, v)]
    case Sequence(e) => [Atom(PULong, VInt(|v.vs|))] + ListAtoms(m, e.value, v.vs)
    case Array(e, _) => ListAtoms(m, e.value, v.vs)
    case Named(name, _) =>
      if IsEnum(m, name) then [Atom(PLong, v)] else FieldAtoms(m, FindStruct(m, name).value.fields, v.fields)
  }

  function ListAtoms(m: Module, e: TypeSpec, vs: seq<Val>): (xs: seq<Atom>)
    requires AllHaveType(m, e, vs)
    ensures AtomsOk(xs)
    decreases vs, 0
  {
    if |vs| == 0 then [] else AtomsOf(m, e, vs[0]) + ListAtoms(m, e, vs[1..])
  }

  function FieldAtoms(m: Module, fs: seq<Field>, vs: seq<Val>): (xs: seq<Atom>)
    requires FieldsHaveType(m, fs, vs)
    ensures AtomsOk(xs)
    decreases vs, 0
  {
    if |vs| == 0 then [] else AtomsOf(m, fs[0].typ, vs[0]) + FieldAtoms(m, fs[1..], vs[1..])
  }

  lemma {:induction false} PutBoth(buf: Bytes, xs: seq<Atom>, ys: seq<Atom>)
    requires AtomsOk(xs) && AtomsOk(ys)
    ensures AtomsOk(xs + ys) && PutAtoms(buf, xs + ys) == PutAtoms(PutAtoms(buf, xs), ys)
    decreases |xs|
  {
    hide PrimOk, PutPrim;
    if |xs| == 0 {
      assert xs + ys == ys;
    } else {
      assert (xs + ys)[0] == xs[0] && (xs + ys)[1..] == xs[1..] + ys;
      PutBoth(PutPrim(buf, xs[0].p, xs[0].v), xs[1..], ys);
    }
  }

  lemma PutOne(buf: Bytes, p: Prim, v: Val)
    requires PrimOk(p, v)
    ensures PutAtoms(buf, [Atom(p, v)]) == PutPrim(buf, p, v)
  {
    hide PrimOk, PutPrim;
    assert [Atom(p, v)][1..] == [];
  }

  lemma PutOctet(buf: Bytes, v: Val)
    requires PrimOk(POctet, v)
    ensures PutPrim(buf, POctet, v) == buf + [OctetOf(v)]
  {
    assert Pow256(1) == 256;
    assert LE(v.n, 1) == [v.n % 256] + LE(v.n / 256, 0);
    assert Aligned(buf, 1) == buf;
  }

  // Octets one by one are octets at once.
  lemma {:induction false} OctetAtoms(m: Module, vs: seq<Val>, buf: Bytes)
    requires AllHaveType(m, Primitive(POctet), vs) && AreOctets(vs)
    ensures PutAtoms(buf, ListAtoms(m, Primitive(POctet), vs)) == buf + OctetsOf(vs)
    decreases |vs|
  {
    hide PrimOk, PutPrim;
    if |vs| == 0 {
      assert buf + OctetsOf(vs) == buf;
    } else {
      var more := ListAtoms(m, Primitive(POctet), vs[1..]);
      PutBoth(buf, [Atom(POctet, vs[0])], more);
      PutOne(buf, POctet, vs[0]);
      PutOctet(buf, vs[0]);
      OctetAtoms(m, vs[1..], buf + [OctetOf(vs[0])]);
      assert OctetsOf(vs) == [OctetOf(vs[0])] + OctetsOf(vs[1..]);
    }
  }

  lemma PutCount(buf: Bytes, n: nat)
    requires n < Pow256(4)
    ensures PrimOk(PULong, VInt(n)) && PutPrim(buf, PULong, VInt(n)) == PutNumber(buf, n, 4)
  {}

  lemma PutBytesAre(buf: Bytes, vs: seq<Val>)
    requires AreOctets(vs) && |vs| < Pow256(4)
    ensures PutBytes(buf, vs) == PutNumber(buf, |vs|, 4) + OctetsOf(vs)
  {}

  lemma {:induction false} EncIsAtoms(m: Module, ts: TypeSpec, v: Val, buf: Bytes)
    requires HasType(m, ts, v)
    ensures Enc(m, ts, v, buf) == PutAtoms(buf, AtomsOf(m, ts, v))
    decreases v, 1
  {
    hide PutPrim, PutNumber, PutBytes, PutAtoms, PrimOk, OctetsOf;
    match Resolve(m, ts)
    case Primitive(p) => PutOne(buf, p, v);
    case Sequence(Some(e)) =>
      var head := [Atom(PULong, VInt(|v.vs|))];
      PutCount(buf, |v.vs|);
      PutOne(buf, PULong, VInt(|v.vs|));
      PutBoth(buf, head, ListAtoms(m, e, v.vs));
      if e == Primitive(POctet) {
        OctetsHaveType(m, e, v.vs);
        OctetAtoms(m, v.vs, PutNumber(buf, |v.vs|, 4));
        PutBytesAre(buf, v.vs);
      } else {
        EncAllIsAtoms(m, e, v.vs, PutNumber(buf, |v.vs|, 4));
      }
    case Array(Some(e), _) => EncAllIsAtoms(m, e, v.vs, buf);
    case Named(name, _) =>
      if IsEnum(m, name) { PutOne(buf, PLong, v); }
      else { EncFieldsIsAtoms(m, FindStruct(m, name).value.fields, v.fields, buf); }
  }

  lemma {:induction false} EncAllIsAtoms(m: Module, e: TypeSpec, vs: seq<Val>, buf: Bytes)
    requires AllHaveType(m, e, vs)
    ensures EncAll(m, e, vs, buf) == PutAtoms(buf, ListAtoms(m, e, vs))
    decreases vs, 0
  {
    hide HasType, Enc, AtomsOf, PrimOk;
    if |vs| > 0 {
      EncIsAtoms(m, e, vs[0], buf);
      EncAllIsAtoms(m, e, vs[1..], Enc(m, e, vs[0], buf));
      PutBoth(buf, AtomsOf(m, e, vs[0]), ListAtoms(m, e, vs[1..]));
    }
  }

  lemma {:induction false} EncFieldsIsAtoms(m: Module, fs: seq<Field>, vs: seq<Val>, buf: Bytes)
    requires FieldsHaveType(m, fs, vs)
    ensures EncFields(m, fs, vs, buf) == PutAtoms(buf, FieldAtoms(m, fs, vs))
    decreases vs, 0
  {
    hide HasType, Enc, AtomsOf, PrimOk;
    if |vs| > 0 {
      EncIsAtoms(m, fs[0].typ, vs[0], buf);
      EncFieldsIsAtoms(m, fs[1..], vs[1..], Enc(m, fs[0].typ, vs[0], buf));
      PutBoth(buf, AtomsOf(m, fs[0].typ, vs[0]), FieldAtoms(m, fs[1..], vs[1..]));
    }
  }

  /** The emitted marshal writes the header and then the value's primitives, one
      after another, for every struct its generator accepts. */
  lemma {:induction false} MarshalWritesAtoms(m: Module, rank: string -> nat, st: Struct, ctr: nat, v: Val)
    requires Acyclic(m, rank) && InTree(m, st) && Distinct(FieldNames(st.fields)) && WellNamed(m)
    requires IsValueOf(m, st, v) && Generable(m, st)
    ensures Marshal(m, rank, st, ctr, v) == Some(PutAtoms([0x01, 0x00, 0x00, 0x00], FieldAtoms(m, st.fields, v.fields)))
  {
    hide IsClear, HasType, Enc, AtomsOf, PutAtoms, ExecEnc;
    CodecGenerates(m, rank, st, ctr, ctr);
    assert v.fields[0..] == v.fields && v.names[0..] == v.names;
    MarshalFields(m, rank, st.fields, Root(Param), {}, ctr, v, 0, map[Param := v], HEADER);
    EncFieldsIsAtoms(m, st.fields, v.fields, HEADER);
  }
}
