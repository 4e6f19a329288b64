module Decoding {
  // What a generated unmarshal answers on any bytes (src/idl/gen.cpp,
  // src/cdr/cdr.cpp): the value a plain decoder reads from them, or nullopt where
  // the bytes end too soon; it never looks at a value that is not there.

  import opened Octets
  import opened Cdr
  import opened Idl
  import opened Codegen

  // ---- The plain decoder ------------------------------------------------

  /** The value of a type that the bytes hold from pos on, and where it ends. */
  ghost function Dec(c: Setting, ts: TypeSpec, visited: set<string>, pos: nat): Option<(Val, nat)>
    requires Acyclic(c.m, c.rank) && Mentions(c.m, ts)
    decreases Leaves(c.m) - visited, 0, RankOf(c.m, c.rank, ts), Depth(ts), 0
  {
    ResolveStaysInTree(c.m, ts);
    match Resolve(c.m, ts)
    case Primitive(p) => GetPrim(c.data, pos, p)
    case Sequence(Some(e)) =>
      if e == Primitive(POctet) then GetBytes(c.data, pos)
      else
        ElementIsSmaller(c.m, c.rank, ts, e);
        (match GetNumber(c.data, pos, 4)
         case None => None
         case Some((n, at)) => AsList(DecAll(c, e, visited, n, at)))
    case Array(Some(e), n) =>
      ElementIsSmaller(c.m, c.rank, ts, e);
      AsList(DecAll(c, e, visited, n, pos))
    case Named(name, _) =>
      if IsEnum(c.m, name) then GetPrim(c.data, pos, PLong)
      else if FindStruct(c.m, name).None? || Bare(name) in visited then None
      else
        StructStaysInTree(c.m, name);
        var fs := FindStruct(c.m, name).value.fields;
        AsStruct(fs, DecFields(c, fs, visited + {Bare(name)}, pos))
    case _ => None
  }

  // n elements, one after another.
  ghost function DecAll(c: Setting, e: TypeSpec, visited: set<string>, n: nat, pos: nat): (r: Option<(seq<Val>, nat)>)
    requires Acyclic(c.m, c.rank) && Mentions(c.m, e)
    decreases Leaves(c.m) - visited, 0, RankOf(c.m, c.rank, e), Depth(e), 1 + n
  {
    if n == 0 then Some(([], pos))
    else match Dec(c, e, visited, pos)
      case None => None
      case Some((v, at)) => InFront(v, DecAll(c, e, visited, n - 1, at))
  }

  ghost function DecFields(c: Setting, fs: seq<Field>, visited: set<string>, pos: nat): Option<(seq<Val>, nat)>
    requires Acyclic(c.m, c.rank) && forall f :: f in fs ==> Mentions(c.m, f.typ)
    decreases Leaves(c.m) - visited, 1, |fs|, 0, 0
  {
    if |fs| == 0 then Some(([], pos))
    else match Dec(c, fs[0].typ, visited, pos)
      case None => None
      case Some((v, at)) => InFront(v, DecFields(c, fs[1..], visited, at))
  }

  function InFront(v: Val, r: Option<(seq<Val>, nat)>): Option<(seq<Val>, nat)> {
    match r case None => None case Some((vs, at)) => Some(([v] + vs, at))
  }

  function AsList(r: Option<(seq<Val>, nat)>): Option<(Val, nat)> {
    match r case None => None case Some((vs, at)) => Some((VList(vs), at))
  }

  function AsStruct(fs: seq<Field>, r: Option<(seq<Val>, nat)>): Option<(Val, nat)> {
    match r case None => None case Some((vs, at)) => Some((VStruct(FieldNames(fs), vs), at))
  }

  // ---- The emitted statements follow it ---------------------------------

  // The run answers what the decoder says: nullopt, or dest holding the value.
  ghost predicate Answers(r: Outcome, s: Outcome, dest: Ref, spec: Option<(Val, nat)>)
    requires s.Running?
  {
    match spec case None => r == ReturnNullopt case Some((v, at)) => Reads(r, s, dest, v, at)
  }

  lemma {:induction false} ReadFails(
    t: nat, reader: Reader, more: seq<DecStmt>, data: Bytes, dflt: TypeSpec -> Val, s: Outcome)
    requires s.Running? && DoRead(data, s.pos, reader) == None
    ensures ExecDec([Read(t, reader)] + ([CheckRead(t)] + more), data, dflt, s) == ReturnNullopt
  {
    ExecDecCons(Read(t, reader), [CheckRead(t)] + more, data, dflt, s);
    ExecDecCons(CheckRead(t), more, data, dflt, s.(opts := s.opts[t := None]));
  }

  lemma {:induction false} PrimDecodeAnswers(
    reader: Reader, dest: Ref, ctr: nat, data: Bytes, dflt: TypeSpec -> Val, s: Outcome)
    requires s.Running? && Eval(s.vars, dest).Some?
    ensures Answers(ExecDec(PrimDecode(reader, dest, ctr).stmts, data, dflt, s), s, dest, DoRead(data, s.pos, reader))
  {
    hide ExecDec, DoRead, Reads;
    match DoRead(data, s.pos, reader)
    case None =>
      assert [Read(ctr, reader), CheckRead(ctr), Assign(dest, ctr)]
          == [Read(ctr, reader)] + ([CheckRead(ctr)] + [Assign(dest, ctr)]);
      ReadFails(ctr, reader, [Assign(dest, ctr)], data, dflt, s);
    case Some((v, at)) => PrimDecodeReads(reader, dest, ctr, data, dflt, s, v, at);
  }

  // A type that generates has a value.
  lemma {:induction false} SomeValue(
    m: Module, rank: string -> nat, ts: TypeSpec, dest: Ref, visited: set<string>, ctr: nat) returns (v: Val)
    requires Acyclic(m, rank) && Mentions(m, ts) && GenDec(m, rank, ts, dest, visited, ctr).GenOk?
    ensures HasType(m, ts, v)
    decreases Leaves(m) - visited, 0, RankOf(m, rank, ts), Depth(ts), 0
  {
    ResolveStaysInTree(m, ts);
    match Resolve(m, ts)
    case Primitive(p) => v := SomePrim(p);
    case Sequence(_) => v := VList([]);
    case Array(Some(e), n) =>
      ElementIsSmaller(m, rank, ts, e);
      var x := SomeValue(m, rank, e, Root(Tmp(ctr)), visited, ctr + 1);
      v := VList(seq(n, _ => x));
      AllHaveTypeAt(m, e, v.vs);
    case Named(name, _) =>
      if IsEnum(m, name) {
        v := SomePrim(PLong);
      } else {
        StructStaysInTree(m, name);
        var fs := FindStruct(m, name).value.fields;
        var vs := SomeFields(m, rank, fs, dest, visited + {Bare(name)}, ctr);
        v := VStruct(FieldNames(fs), vs);
      }
  }

  lemma SomePrim(p: Prim) returns (v: Val)
    ensures PrimOk(p, v)
  {
    v := match p case PBool => VBool(false) case PString => VStr([]) case _ => VInt(0);
    assert Pow256(4) > 1;
  }

  lemma {:induction false} SomeFields(
    m: Module, rank: string -> nat, fs: seq<Field>, dest: Ref, visited: set<string>, ctr: nat) returns (vs: seq<Val>)
    requires Acyclic(m, rank) && (forall f :: f in fs ==> Mentions(m, f.typ))
    requires GenDecFields(m, rank, fs, dest, visited, ctr).GenOk?
    ensures FieldsHaveType(m, fs, vs)
    decreases Leaves(m) - visited, 1, |fs|, 0, 0
  {
    if |fs| == 0 {
      vs := [];
    } else {
      var first := GenDec(m, rank, fs[0].typ, Dot(dest, fs[0].name), visited, ctr);
      var v := SomeValue(m, rank, fs[0].typ, Dot(dest, fs[0].name), visited, ctr);
      var more := SomeFields(m, rank, fs[1..], dest, visited, first.ctr);
      vs := [v] + more;
      assert vs[1..] == more;
    }
  }

  /** On any bytes the emitted statements store in dest the value the decoder
      reads, and stop where it does; if the bytes end too soon they return
      nullopt.  They never get stuck. */
  lemma {:induction false} TypeAnswers(
    c: Setting, ts: TypeSpec, dest: Ref, visited: set<string>, ctr: nat, d0: Val, s: Outcome)
    requires Sound(c) && Mentions(c.m, ts) && GenDec(c.m, c.rank, ts, dest, visited, ctr).GenOk?
    requires s.Running? && Eval(s.vars, dest) == Some(d0) && Unused(ctr, dest, s.vars) && HasType(c.m, ts, d0)
    ensures Answers(ExecDec(GenDec(c.m, c.rank, ts, dest, visited, ctr).stmts, c.data, c.dflt, s), s, dest,
                    Dec(c, ts, visited, s.pos))
    decreases Leaves(c.m) - visited, 0, RankOf(c.m, c.rank, ts), Depth(ts), 1
  {
    hide ExecDec, Answers, GetPrim, GetBytes;
    match Resolve(c.m, ts)
    case Primitive(p) => PrimDecodeAnswers(ReadPrim(p), dest, ctr, c.data, c.dflt, s);
    case Sequence(_) => SequenceAnswers(c, ts, dest, visited, ctr, d0, s);
    case Array(_, _) => ArrayAnswers(c, ts, dest, visited, ctr, d0, s);
    case Named(_, _) => NamedAnswers(c, ts, dest, visited, ctr, d0, s);
  }

  lemma {:induction false} SequenceAnswers(
    c: Setting, ts: TypeSpec, dest: Ref, visited: set<string>, ctr: nat, d0: Val, s: Outcome)
    requires Sound(c) && Mentions(c.m, ts) && GenDec(c.m, c.rank, ts, dest, visited, ctr).GenOk?
    requires Resolve(c.m, ts).Sequence?
    requires s.Running? && Eval(s.vars, dest) == Some(d0) && Unused(ctr, dest, s.vars) && HasType(c.m, ts, d0)
    ensures Answers(ExecDec(GenDec(c.m, c.rank, ts, dest, visited, ctr).stmts, c.data, c.dflt, s), s, dest,
                    Dec(c, ts, visited, s.pos))
    decreases Leaves(c.m) - visited, 0, RankOf(c.m, c.rank, ts), Depth(ts), 0
  {
    hide ExecDec, Answers, GetBytes, GetNumber;
    var e := Resolve(c.m, ts).elem.value;
    if e == Primitive(POctet) {
      PrimDecodeAnswers(ReadBytes, dest, ctr, c.data, c.dflt, s);
    } else {
      ResolveStaysInTree(c.m, ts);
      ElementIsSmaller(c.m, c.rank, ts, e);
      CountedAnswers(c, e, dest, visited, ctr, d0.vs, s);
    }
  }

  lemma CountReads(data: Bytes, pos: nat)
    ensures DoRead(data, pos, ReadPrim(PULong)) ==
      match GetNumber(data, pos, 4) case None => None case Some((n, at)) => Some((VInt(n), at))
  {}

  lemma {:induction false} CountedAnswers(
    c: Setting, e: TypeSpec, dest: Ref, visited: set<string>, ctr: nat, ds: seq<Val>, s: Outcome)
    requires Sound(c) && Mentions(c.m, e) && GenDec(c.m, c.rank, e, Root(Tmp(ctr + 1)), visited, ctr + 2).GenOk?
    requires s.Running? && Eval(s.vars, dest) == Some(VList(ds)) && Unused(ctr, dest, s.vars) && AllHaveType(c.m, e, ds)
    ensures var body := GenDec(c.m, c.rank, e, Root(Tmp(ctr + 1)), visited, ctr + 2).stmts;
      Answers(ExecDec(CountedDecode(dest, ctr, e, body), c.data, c.dflt, s), s, dest,
              match GetNumber(c.data, s.pos, 4)
              case None => None
              case Some((n, at)) => AsList(DecAll(c, e, visited, n, at)))
    decreases Leaves(c.m) - visited, 0, RankOf(c.m, c.rank, e), Depth(e)
  {
    hide ExecDec, GetNumber, GenDec, HasType, Resized, ExecForEachMut, Resolve, Mentions;
    var body := GenDec(c.m, c.rank, e, Root(Tmp(ctr + 1)), visited, ctr + 2).stmts;
    CountReads(c.data, s.pos);
    hide DoRead;
    match GetNumber(c.data, s.pos, 4)
    case None =>
      var loop := [Resize(dest, ctr, e)] + [ForEachMut(ctr + 1, dest, body)];
      assert CountedDecode(dest, ctr, e, body) == [Read(ctr, ReadPrim(PULong))] + ([CheckRead(ctr)] + loop);
      ReadFails(ctr, ReadPrim(PULong), loop, c.data, c.dflt, s);
    case Some((n, at)) =>
      ExecCountedDecode(dest, ctr, e, body, ds, n, at, c.data, c.dflt, s);
      var cur := Resized(ds, n, c.dflt(e));
      var x := SomeValue(c.m, c.rank, e, Root(Tmp(ctr + 1)), visited, ctr + 2);
      Copies(c.m, e, x, n);
      ResizedHasType(c.m, e, ds, n, c.dflt, seq(n, _ => x));
      AfterStore(s.vars, dest, VList(cur), VList(cur), ctr, ctr + 1);
      assert cur[0..] == cur && |cur| == n;
      LoopAnswers(c, e, dest, visited, ctr + 1, 0, cur, Resizing(s, dest, ctr, n, at, cur));
      StoredLater(c, e, dest, visited, ctr, n, at, cur, s, body);
  }

  lemma {:induction false} Copies(m: Module, e: TypeSpec, x: Val, n: nat)
    requires HasType(m, e, x)
    ensures AllHaveType(m, e, seq(n, _ => x))
  {
    AllHaveTypeAt(m, e, seq(n, _ => x));
  }

  // The list read from position i on, dest holding cur.
  ghost predicate LoopAnswersAt(r: Outcome, s: Outcome, dest: Ref, done: seq<Val>, spec: Option<(seq<Val>, nat)>)
    requires s.Running?
  {
    match spec case None => r == ReturnNullopt case Some((vs, at)) => Reads(r, s, dest, VList(done + vs), at)
  }

  lemma {:induction false} StoredLater(
    c: Setting, e: TypeSpec, dest: Ref, visited: set<string>, ctr: nat, n: nat, at: nat, cur: seq<Val>, s: Outcome,
    body: seq<DecStmt>)
    requires Acyclic(c.m, c.rank) && Mentions(c.m, e) && s.Running? && Eval(s.vars, dest).Some? && |cur| == n
    requires Unused(ctr, dest, s.vars)
    requires var s' := Resizing(s, dest, ctr, n, at, cur);
      LoopAnswersAt(ExecForEachMut(body, ctr + 1, dest, 0, n, c.data, c.dflt, s'), s', dest, cur[..0],
                    DecAll(c, e, visited, n, at))
    ensures var s' := Resizing(s, dest, ctr, n, at, cur);
      Answers(ExecForEachMut(body, ctr + 1, dest, 0, n, c.data, c.dflt, s'), s, dest,
              AsList(DecAll(c, e, visited, n, at)))
  {
    hide ExecForEachMut, DecAll;
    match DecAll(c, e, visited, n, at)
    case None =>
    case Some((vs, p)) =>
      AfterStore(s.vars, dest, VList(cur), VList(vs), ctr, ctr + 1);
      assert cur[..0] + vs == vs;
  }

  lemma {:induction false} LoopAnswers(
    c: Setting, e: TypeSpec, dest: Ref, visited: set<string>, n: nat, i: nat, cur: seq<Val>, s: Outcome)
    requires Sound(c) && Mentions(c.m, e) && GenDec(c.m, c.rank, e, Root(Tmp(n)), visited, n + 1).GenOk?
    requires s.Running? && Eval(s.vars, dest) == Some(VList(cur)) && Unused(n, dest, s.vars)
    requires i <= |cur| && AllHaveType(c.m, e, cur[i..])
    ensures LoopAnswersAt(
      ExecForEachMut(GenDec(c.m, c.rank, e, Root(Tmp(n)), visited, n + 1).stmts, n, dest, i, |cur|, c.data, c.dflt, s),
      s, dest, cur[..i], DecAll(c, e, visited, |cur| - i, s.pos))
    decreases Leaves(c.m) - visited, 0, RankOf(c.m, c.rank, e), Depth(e), 2 + |cur| - i
  {
    hide ExecDec, GenDec, HasType, Dec, Resolve, Mentions, Store;
    var body := GenDec(c.m, c.rank, e, Root(Tmp(n)), visited, n + 1).stmts;
    if i == |cur| {
      assert cur[..i] + [] == cur;
      StoreSame(s.vars, dest, VList(cur));
    } else {
      Uncons(cur, i);
      var s1 := s.(vars := s.vars[Tmp(n) := cur[i]]);
      TypeAnswers(c, e, Root(Tmp(n)), visited, n + 1, cur[i], s1);
      match Dec(c, e, visited, s.pos)
      case None =>
      case Some((x, at)) =>
        var cur' := cur[i := x];
        var s2 := LoopGoesOn(body, dest, n, i, cur, x, at, c, s);
        assert cur'[i + 1..] == cur[i + 1..];
        LoopAnswers(c, e, dest, visited, n, i + 1, cur', s2);
        OneMoreRead(c, e, dest, visited, n, i, cur, x, at, s, s2, body);
    }
  }

  // Element i is read: the loop goes on with it stored in dest.
  lemma {:induction false} LoopGoesOn(
    body: seq<DecStmt>, dest: Ref, n: nat, i: nat, cur: seq<Val>, x: Val, at: nat, c: Setting, s: Outcome)
    returns (s2: Outcome)
    requires s.Running? && Eval(s.vars, dest) == Some(VList(cur)) && i < |cur| && Unused(n, dest, s.vars)
    requires var s1 := s.(vars := s.vars[Tmp(n) := cur[i]]);
      Reads(ExecDec(body, c.data, c.dflt, s1), s1, Root(Tmp(n)), x, at)
    ensures s2.Running? && s2.pos == at && s2.vars == Store(s.vars, dest, VList(cur[i := x]))
    ensures Eval(s2.vars, dest) == Some(VList(cur[i := x])) && Unused(n, dest, s2.vars)
    ensures ExecForEachMut(body, n, dest, i, |cur|, c.data, c.dflt, s)
            == ExecForEachMut(body, n, dest, i + 1, |cur|, c.data, c.dflt, s2)
  {
    hide ExecDec, ExecForEachMut;
    var r := ExecDec(body, c.data, c.dflt, s.(vars := s.vars[Tmp(n) := cur[i]]));
    assert r.vars == s.vars[Tmp(n) := x];
    ForEachMutStep(body, n, dest, i, |cur|, c.data, c.dflt, s, cur, x, r);
    AfterStore(s.vars, dest, VList(cur[i := x]), VList(cur[i := x]), n, n);
    s2 := r.(vars := Store(s.vars, dest, VList(cur[i := x])));
  }

  lemma {:induction false} OneMoreRead(
    c: Setting, e: TypeSpec, dest: Ref, visited: set<string>, n: nat, i: nat, cur: seq<Val>, x: Val, at: nat,
    s: Outcome, s2: Outcome, body: seq<DecStmt>)
    requires Acyclic(c.m, c.rank) && Mentions(c.m, e) && i < |cur| && s.Running? && s2.Running? && s2.pos == at
    requires Eval(s.vars, dest).Some? && Unused(n, dest, s.vars) && s2.vars == Store(s.vars, dest, VList(cur[i := x]))
    requires Dec(c, e, visited, s.pos) == Some((x, at))
    requires LoopAnswersAt(ExecForEachMut(body, n, dest, i + 1, |cur|, c.data, c.dflt, s2), s2, dest,
                           cur[i := x][..i + 1], DecAll(c, e, visited, |cur| - (i + 1), at))
    ensures LoopAnswersAt(ExecForEachMut(body, n, dest, i + 1, |cur|, c.data, c.dflt, s2), s, dest,
                          cur[..i], DecAll(c, e, visited, |cur| - i, s.pos))
  {
    hide ExecForEachMut, Dec;
    match DecAll(c, e, visited, |cur| - (i + 1), at)
    case None =>
    case Some((vs, p)) =>
      var cur' := cur[i := x];
      AfterStore(s.vars, dest, VList(cur'), VList(cur[..i] + ([x] + vs)), n, n);
      assert cur'[..i + 1] + vs == cur[..i] + ([x] + vs);
  }

  lemma {:induction false} ArrayAnswers(
    c: Setting, ts: TypeSpec, dest: Ref, visited: set<string>, ctr: nat, d0: Val, s: Outcome)
    requires Sound(c) && Mentions(c.m, ts) && GenDec(c.m, c.rank, ts, dest, visited, ctr).GenOk?
    requires Resolve(c.m, ts).Array?
    requires s.Running? && Eval(s.vars, dest) == Some(d0) && Unused(ctr, dest, s.vars) && HasType(c.m, ts, d0)
    ensures Answers(ExecDec(GenDec(c.m, c.rank, ts, dest, visited, ctr).stmts, c.data, c.dflt, s), s, dest,
                    Dec(c, ts, visited, s.pos))
    decreases Leaves(c.m) - visited, 0, RankOf(c.m, c.rank, ts), Depth(ts), 0
  {
    hide ExecDec, ExecForEachMut, DecAll;
    ResolveStaysInTree(c.m, ts);
    var e := Resolve(c.m, ts).elem.value;
    ElementIsSmaller(c.m, c.rank, ts, e);
    var body := GenDec(c.m, c.rank, e, Root(Tmp(ctr)), visited, ctr + 1).stmts;
    OneLoop(ctr, dest, body, d0.vs, c, s);
    assert d0.vs[0..] == d0.vs && d0.vs[..0] == [];
    LoopAnswers(c, e, dest, visited, ctr, 0, d0.vs, s);
    match DecAll(c, e, visited, |d0.vs|, s.pos)
    case None =>
    case Some((vs, at)) => assert [] + vs == vs;
  }

  lemma {:induction false} OneLoop(n: nat, dest: Ref, body: seq<DecStmt>, vs: seq<Val>, c: Setting, s: Outcome)
    requires s.Running? && Eval(s.vars, dest) == Some(VList(vs))
    ensures ExecDec([ForEachMut(n, dest, body)], c.data, c.dflt, s)
            == ExecForEachMut(body, n, dest, 0, |vs|, c.data, c.dflt, s)
  {
    ExecDecSingle(ForEachMut(n, dest, body), c.data, c.dflt, s);
  }

  lemma {:induction false} NamedAnswers(
    c: Setting, ts: TypeSpec, dest: Ref, visited: set<string>, ctr: nat, d0: Val, s: Outcome)
    requires Sound(c) && Mentions(c.m, ts) && GenDec(c.m, c.rank, ts, dest, visited, ctr).GenOk?
    requires Resolve(c.m, ts).Named?
    requires s.Running? && Eval(s.vars, dest) == Some(d0) && Unused(ctr, dest, s.vars) && HasType(c.m, ts, d0)
    ensures Answers(ExecDec(GenDec(c.m, c.rank, ts, dest, visited, ctr).stmts, c.data, c.dflt, s), s, dest,
                    Dec(c, ts, visited, s.pos))
    decreases Leaves(c.m) - visited, 0, RankOf(c.m, c.rank, ts), Depth(ts), 0
  {
    hide ExecDec, GetPrim;
    ResolveStaysInTree(c.m, ts);
    var name := Resolve(c.m, ts).name;
    if IsEnum(c.m, name) {
      PrimDecodeAnswers(ReadPrim(PLong), dest, ctr, c.data, c.dflt, s);
    } else {
      StructStaysInTree(c.m, name);
      assert d0.fields[0..] == d0.fields && d0.names[0..] == d0.names && d0.fields[..0] == [];
      var fs := FindStruct(c.m, name).value.fields;
      FieldsAnswer(c, fs, dest, visited + {Bare(name)}, ctr, 0, d0, s);
      hide DecFields, Reads;
      match DecFields(c, fs, visited + {Bare(name)}, s.pos)
      case None =>
      case Some((vs, at)) => assert [] + vs == vs;
    }
  }

  // Fields [0, k) of dest are read; `fs` are the others.
  ghost predicate FieldsAnswerAt(r: Outcome, s: Outcome, dest: Ref, d: Val, k: nat, spec: Option<(seq<Val>, nat)>)
    requires s.Running? && d.VStruct? && k <= |d.fields|
  {
    match spec
    case None => r == ReturnNullopt
    case Some((vs, at)) => Reads(r, s, dest, d.(fields := d.fields[..k] + vs), at)
  }

  lemma {:induction false} FieldsAnswer(
    c: Setting, fs: seq<Field>, dest: Ref, visited: set<string>, ctr: nat, k: nat, d: Val, s: Outcome)
    requires Sound(c) && (forall f :: f in fs ==> Mentions(c.m, f.typ))
    requires GenDecFields(c.m, c.rank, fs, dest, visited, ctr).GenOk?
    requires s.Running? && Eval(s.vars, dest) == Some(d) && Unused(ctr, dest, s.vars)
    requires d.VStruct? && |d.names| == |d.fields| && Distinct(d.names)
    requires k <= |d.fields| && d.names[k..] == FieldNames(fs) && FieldsHaveType(c.m, fs, d.fields[k..])
    ensures FieldsAnswerAt(ExecDec(GenDecFields(c.m, c.rank, fs, dest, visited, ctr).stmts, c.data, c.dflt, s), s, dest,
                           d, k, DecFields(c, fs, visited, s.pos))
    decreases Leaves(c.m) - visited, 1, |fs|, 0, 0
  {
    hide Dec, GenDec, HasType, Resolve, Mentions;
    if |fs| == 0 {
      assert d.fields[..k] + [] == d.fields;
      StoreSame(s.vars, dest, d);
    } else {
      hide ExecDec;
      var f := fs[0];
      var first := GenDec(c.m, c.rank, f.typ, Dot(dest, f.name), visited, ctr);
      var more := GenDecFields(c.m, c.rank, fs[1..], dest, visited, first.ctr);
      Uncons(d.names, k);
      Uncons(d.fields, k);
      assert d.names[k] == f.name && d.names[k + 1..] == FieldNames(fs[1..]);
      FieldIsAt(dest, d, k, ctr, s);
      hide Eval, Unused, RootOf;
      TypeAnswers(c, f.typ, Dot(dest, f.name), visited, ctr, d.fields[k], s);
      ExecDecConcat(first.stmts, more.stmts, c.data, c.dflt, s);
      match Dec(c, f.typ, visited, s.pos)
      case None =>
      case Some((x, at)) =>
        var d' := d.(fields := d.fields[k := x]);
        GenDecCounts(c.m, c.rank, f.typ, Dot(dest, f.name), visited, ctr);
        AfterStore(s.vars, dest, d', d', ctr, first.ctr);
        assert d'.fields[k + 1..] == d.fields[k + 1..];
        var r := ExecDec(first.stmts, c.data, c.dflt, s);
        FieldIsStored(dest, d, k, x, at, ctr, s, r);
        hide Store;
        FieldsAnswer(c, fs[1..], dest, visited, first.ctr, k + 1, d', r);
        OneMoreField(c, fs, dest, visited, ctr, k, d, x, at, s, r, ExecDec(more.stmts, c.data, c.dflt, r));
    }
  }

  // Field k of dest is a place of its own.
  lemma {:induction false} FieldIsAt(dest: Ref, d: Val, k: nat, ctr: nat, s: Outcome)
    requires s.Running? && Eval(s.vars, dest) == Some(d) && Unused(ctr, dest, s.vars)
    requires d.VStruct? && k < |d.names| == |d.fields| && Distinct(d.names)
    ensures Eval(s.vars, Dot(dest, d.names[k])) == Some(d.fields[k]) && Unused(ctr, Dot(dest, d.names[k]), s.vars)
  {
    IndexOfDistinct(d.names, k);
  }

  lemma {:induction false} FieldIsStored(
    dest: Ref, d: Val, k: nat, x: Val, at: nat, ctr: nat, s: Outcome, r: Outcome)
    requires s.Running? && Eval(s.vars, dest) == Some(d) && Unused(ctr, dest, s.vars)
    requires d.VStruct? && k < |d.names| == |d.fields| && Distinct(d.names)
    requires Reads(r, s, Dot(dest, d.names[k]), x, at)
    ensures r.vars == Store(s.vars, dest, d.(fields := d.fields[k := x]))
  {
    IndexOfDistinct(d.names, k);
  }

  lemma {:induction false} OneMoreField(
    c: Setting, fs: seq<Field>, dest: Ref, visited: set<string>, ctr: nat, k: nat, d: Val, x: Val, at: nat,
    s: Outcome, r: Outcome, end: Outcome)
    requires Acyclic(c.m, c.rank) && (forall f :: f in fs ==> Mentions(c.m, f.typ)) && |fs| > 0
    requires s.Running? && r.Running? && Eval(s.vars, dest).Some? && Unused(ctr, dest, s.vars)
    requires d.VStruct? && k < |d.fields| && Dec(c, fs[0].typ, visited, s.pos) == Some((x, at)) && r.pos == at
    requires r.vars == Store(s.vars, dest, d.(fields := d.fields[k := x]))
    requires FieldsAnswerAt(end, r, dest, d.(fields := d.fields[k := x]), k + 1, DecFields(c, fs[1..], visited, at))
    ensures FieldsAnswerAt(end, s, dest, d, k, DecFields(c, fs, visited, s.pos))
  {
    hide Dec;
    match DecFields(c, fs[1..], visited, at)
    case None =>
    case Some((vs, p)) =>
      var d' := d.(fields := d.fields[k := x]);
      AfterStore(s.vars, dest, d', d.(fields := d.fields[..k] + ([x] + vs)), ctr, ctr);
      assert d'.fields[..k + 1] + vs == d.fields[..k] + ([x] + vs);
  }

  // ---- A struct's unmarshal ---------------------------------------------

  /** On any bytes a struct's unmarshal answers the plain decoder's value, or
      nullopt where there is none; no run gets stuck. */
  lemma {:induction false} UnmarshalAnswers(c: Setting, st: Struct, ctr: nat, d0: Val)
    requires Sound(c) && InTree(c.m, st) && Distinct(FieldNames(st.fields)) && IsValueOf(c.m, st, d0)
    requires Generable(c.m, st)
    ensures Unmarshal(c, st, ctr, d0) ==
      if Accepts(c.data) then AsStruct(st.fields, DecFields(c, st.fields, {}, 4)) else None
    ensures GenDecFields(c.m, c.rank, st.fields, Root(Param), {}, ctr).GenOk?
    ensures ExecDec(GenDecFields(c.m, c.rank, st.fields, Root(Param), {}, ctr).stmts, c.data, c.dflt,
                    Running(map[Param := d0], map[], 4)) != Stuck
  {
    hide IsClear, DecFields, GenDecFields, ExecDec;
    CodecGenerates(c.m, c.rank, st, ctr, ctr);
    assert d0.fields[0..] == d0.fields && d0.names[0..] == d0.names && d0.fields[..0] == [];
    var s := Running(map[Param := d0], map[], 4);
    FieldsAnswer(c, st.fields, Root(Param), {}, ctr, 0, d0, s);
    match DecFields(c, st.fields, {}, 4)
    case None =>
    case Some((vs, at)) => assert [] + vs == vs;
  }

  // ---- Bytes that end too soon ------------------------------------------

  // What is read from a part of the bytes is read from all of them.
  lemma NumberReadsOn(data: Bytes, all: Bytes, pos: nat, k: nat)
    requires k > 0 && data <= all
    ensures GetNumber(data, pos, k).Some? ==>
      GetNumber(all, pos, k) == GetNumber(data, pos, k) && GetNumber(data, pos, k).value.1 <= |data|
  {
    var at := pos + Pad(pos, k);
    if at + k <= |data| { assert data[at..at + k] == all[at..at + k]; }
  }

  lemma PrimReadsOn(data: Bytes, all: Bytes, pos: nat, p: Prim)
    requires data <= all
    ensures GetPrim(data, pos, p).Some? ==>
      GetPrim(all, pos, p) == GetPrim(data, pos, p) && GetPrim(data, pos, p).value.1 <= |data|
    ensures GetBytes(data, pos).Some? ==>
      GetBytes(all, pos) == GetBytes(data, pos) && GetBytes(data, pos).value.1 <= |data|
  {
    hide GetNumber;
    NumberReadsOn(data, all, pos, 4);
    if !p.PBool? { NumberReadsOn(data, all, pos, Width(p)); }
    if GetNumber(data, pos, 4).Some? {
      var (n, at) := GetNumber(data, pos, 4).value;
      if at + n <= |data| {
        assert data[at..at + n] == all[at..at + n];
        if n > 0 { assert data[at..at + n - 1] == all[at..at + n - 1]; }
      }
    }
  }

  lemma {:induction false} TypeReadsOn(c: Setting, all: Bytes, ts: TypeSpec, visited: set<string>, pos: nat)
    requires Acyclic(c.m, c.rank) && Mentions(c.m, ts) && c.data <= all && pos <= |c.data|
    ensures var r := Dec(c, ts, visited, pos);
      r.Some? ==> Dec(c.(data := all), ts, visited, pos) == r && r.value.1 <= |c.data|
    decreases Leaves(c.m) - visited, 0, RankOf(c.m, c.rank, ts), Depth(ts), 0
  {
    hide GetPrim, GetBytes, GetNumber;
    ResolveStaysInTree(c.m, ts);
    match Resolve(c.m, ts)
    case Primitive(p) => PrimReadsOn(c.data, all, pos, p);
    case Sequence(Some(e)) =>
      PrimReadsOn(c.data, all, pos, PULong);
      NumberReadsOn(c.data, all, pos, 4);
      if e != Primitive(POctet) && GetNumber(c.data, pos, 4).Some? {
        ElementIsSmaller(c.m, c.rank, ts, e);
        AllReadsOn(c, all, e, visited, GetNumber(c.data, pos, 4).value.0, GetNumber(c.data, pos, 4).value.1);
      }
    case Array(Some(e), n) =>
      ElementIsSmaller(c.m, c.rank, ts, e);
      AllReadsOn(c, all, e, visited, n, pos);
    case Named(name, _) =>
      if IsEnum(c.m, name) {
        PrimReadsOn(c.data, all, pos, PLong);
      } else if FindStruct(c.m, name).Some? && Bare(name) !in visited {
        StructStaysInTree(c.m, name);
        FieldsReadOn(c, all, FindStruct(c.m, name).value.fields, visited + {Bare(name)}, pos);
      }
    case _ =>
  }

  lemma {:induction false} AllReadsOn(c: Setting, all: Bytes, e: TypeSpec, visited: set<string>, n: nat, pos: nat)
    requires Acyclic(c.m, c.rank) && Mentions(c.m, e) && c.data <= all && pos <= |c.data|
    ensures var r := DecAll(c, e, visited, n, pos);
      r.Some? ==> DecAll(c.(data := all), e, visited, n, pos) == r && r.value.1 <= |c.data|
    decreases Leaves(c.m) - visited, 0, RankOf(c.m, c.rank, e), Depth(e), 1 + n
  {
    hide Dec;
    if n > 0 {
      TypeReadsOn(c, all, e, visited, pos);
      if Dec(c, e, visited, pos).Some? { AllReadsOn(c, all, e, visited, n - 1, Dec(c, e, visited, pos).value.1); }
    }
  }

  lemma {:induction false} FieldsReadOn(c: Setting, all: Bytes, fs: seq<Field>, visited: set<string>, pos: nat)
    requires Acyclic(c.m, c.rank) && (forall f :: f in fs ==> Mentions(c.m, f.typ)) && c.data <= all && pos <= |c.data|
    ensures var r := DecFields(c, fs, visited, pos);
      r.Some? ==> DecFields(c.(data := all), fs, visited, pos) == r && r.value.1 <= |c.data|
    decreases Leaves(c.m) - visited, 1, |fs|, 0, 0
  {
    hide Dec;
    if |fs| > 0 {
      TypeReadsOn(c, all, fs[0].typ, visited, pos);
      var r := Dec(c, fs[0].typ, visited, pos);
      if r.Some? { FieldsReadOn(c, all, fs[1..], visited, r.value.1); }
    }
  }

  /** Marshalled bytes of which any are missing at the end are refused. */
  lemma {:induction false} TruncatedIsRefused(
    m: Module, rank: string -> nat, st: Struct, ctr: nat, v: Val, d0: Val, dflt: TypeSpec -> Val, n: nat)
    requires Acyclic(m, rank) && WellNamed(m) && Defaults(m, dflt)
    requires InTree(m, st) && Distinct(FieldNames(st.fields)) && Generable(m, st)
    requires IsValueOf(m, st, v) && IsValueOf(m, st, d0)
    requires Marshal(m, rank, st, ctr, v).Some? && n < |Marshal(m, rank, st, ctr, v).value|
    ensures Unmarshal(Setting(m, rank, Marshal(m, rank, st, ctr, v).value[..n], dflt), st, ctr, d0) == None
  {
    hide IsClear, DecFields, Marshal, Unmarshal, Defaults, WellNamed, Acyclic, IsValueOf, InTree, Distinct;
    var bytes := Marshal(m, rank, st, ctr, v).value;
    CodecGenerates(m, rank, st, ctr, ctr);
    CodecRoundTrip(m, rank, st, ctr, ctr, v, d0, dflt);
    var whole, part := Setting(m, rank, bytes, dflt), Setting(m, rank, bytes[..n], dflt);
    UnmarshalAnswers(whole, st, ctr, d0);
    UnmarshalAnswers(part, st, ctr, d0);
    if Accepts(part.data) { PartReads(part, bytes, st); }
  }

  lemma PartReads(c: Setting, all: Bytes, st: Struct)
    requires Acyclic(c.m, c.rank) && InTree(c.m, st) && c.data <= all && |c.data| >= 4
    ensures var r := DecFields(c, st.fields, {}, 4);
      r.Some? ==> DecFields(Setting(c.m, c.rank, all, c.dflt), st.fields, {}, 4) == r && r.value.1 <= |c.data|
  {
    FieldsReadOn(c, all, st.fields, {}, 4);
    assert c.(data := all) == Setting(c.m, c.rank, all, c.dflt);
  }
}
