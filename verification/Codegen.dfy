module Codegen {
  // The IDL compiler's encode and decode generators (src/idl/gen.cpp) and the
  // meaning of the statements they emit: running the generated unmarshal on
  // what the generated marshal wrote gives the value back.

  import opened Octets
  import opened Cdr
  import opened Idl

  // ---- Emitted statements -----------------------------------------------

  /** `v`, or a numbered temporary. */
  datatype Var = Param | Tmp(n: nat)
  datatype Ref = Root(x: Var) | Dot(r: Ref, field: string)

  datatype EncStmt =
    | Write(p: Prim, ref: Ref)
    | WriteBytes(ref: Ref)
    | WriteCount(ref: Ref)
    | WriteEnum(ref: Ref)
    | ForEach(elem: nat, ref: Ref, body: seq<EncStmt>)

  datatype Reader = ReadPrim(p: Prim) | ReadBytes

  datatype DecStmt =
    | Read(tmp: nat, reader: Reader)              // auto tmp = d->read();
    | CheckRead(tmp: nat)                         // if (!tmp) return nullopt;
    | Assign(dest: Ref, tmp: nat)                 // dest = *tmp;
    | Resize(dest: Ref, tmp: nat, elem: TypeSpec) // dest.resize(*tmp);
    | ForEachMut(elemTmp: nat, dest: Ref, body: seq<DecStmt>)

  datatype Gen<S> = GenOk(stmts: seq<S>, ctr: nat) | GenErr

  // ---- The generators ---------------------------------------------------

  // Temporaries are numbered from ctr on; `visited` cuts struct cycles.
  ghost function GenEnc(m: Module, rank: string -> nat, ts: TypeSpec, ref: Ref, visited: set<string>, ctr: nat)
    : Gen<EncStmt>
    requires Acyclic(m, rank) && Mentions(m, ts)
    decreases Leaves(m) - visited, 0, RankOf(m, rank, ts), Depth(ts)
  {
    ResolveStaysInTree(m, ts);
    match Resolve(m, ts)
    case Primitive(p) => GenOk([Write(p, ref)], ctr)
    case Sequence(None) => GenErr
    case Sequence(Some(e)) =>
      if e == Primitive(POctet) then GenOk([WriteBytes(ref)], ctr)
      else
        ElementIsSmaller(m, rank, ts, e);
        (match GenEnc(m, rank, e, Root(Tmp(ctr)), visited, ctr + 1)
         case GenErr => GenErr
         case GenOk(body, c) => GenOk([WriteCount(ref), ForEach(ctr, ref, body)], c))
    case Array(None, _) => GenErr
    case Array(Some(e), _) =>
      ElementIsSmaller(m, rank, ts, e);
      (match GenEnc(m, rank, e, Root(Tmp(ctr)), visited, ctr + 1)
       case GenErr => GenErr
       case GenOk(body, c) => GenOk([ForEach(ctr, ref, body)], c))
    case Named(name, _) =>
      if IsEnum(m, name) then GenOk([WriteEnum(ref)], ctr)
      else if FindStruct(m, name).None? || Bare(name) in visited then GenErr
      else
        StructStaysInTree(m, name);
        GenEncFields(m, rank, FindStruct(m, name).value.fields, ref, visited + {Bare(name)}, ctr)
  }

  ghost function GenEncFields(m: Module, rank: string -> nat, fs: seq<Field>, ref: Ref, visited: set<string>, ctr: nat)
    : Gen<EncStmt>
    requires Acyclic(m, rank) && forall f :: f in fs ==> Mentions(m, f.typ)
    decreases Leaves(m) - visited, 1, |fs|, 0
  {
    if |fs| == 0 then GenOk([], ctr)
    else match GenEnc(m, rank, fs[0].typ, Dot(ref, fs[0].name), visited, ctr)
      case GenErr => GenErr
      case GenOk(a, c) =>
        match GenEncFields(m, rank, fs[1..], ref, visited, c)
        case GenErr => GenErr
        case GenOk(b, c') => GenOk(a + b, c')
  }

  function PrimDecode(reader: Reader, dest: Ref, ctr: nat): Gen<DecStmt> {
    GenOk([Read(ctr, reader), CheckRead(ctr), Assign(dest, ctr)], ctr + 1)
  }

  ghost function GenDec(m: Module, rank: string -> nat, ts: TypeSpec, dest: Ref, visited: set<string>, ctr: nat)
    : Gen<DecStmt>
    requires Acyclic(m, rank) && Mentions(m, ts)
    decreases Leaves(m) - visited, 0, RankOf(m, rank, ts), Depth(ts)
  {
    ResolveStaysInTree(m, ts);
    match Resolve(m, ts)
    case Primitive(p) => PrimDecode(ReadPrim(p), dest, ctr)
    case Sequence(None) => GenErr
    case Sequence(Some(e)) =>
      if e == Primitive(POctet) then PrimDecode(ReadBytes, dest, ctr)
      else
        ElementIsSmaller(m, rank, ts, e);
        (match GenDec(m, rank, e, Root(Tmp(ctr + 1)), visited, ctr + 2)
         case GenErr => GenErr
         case GenOk(body, c) =>
           GenOk([Read(ctr, ReadPrim(PULong)), CheckRead(ctr), Resize(dest, ctr, e),
                  ForEachMut(ctr + 1, dest, body)], c))
    case Array(None, _) => GenErr
    case Array(Some(e), _) =>
      ElementIsSmaller(m, rank, ts, e);
      (match GenDec(m, rank, e, Root(Tmp(ctr)), visited, ctr + 1)
       case GenErr => GenErr
       case GenOk(body, c) => GenOk([ForEachMut(ctr, dest, body)], c))
    case Named(name, _) =>
      if IsEnum(m, name) then PrimDecode(ReadPrim(PLong), dest, ctr)
      else if FindStruct(m, name).None? || Bare(name) in visited then GenErr
      else
        StructStaysInTree(m, name);
        GenDecFields(m, rank, FindStruct(m, name).value.fields, dest, visited + {Bare(name)}, ctr)
  }

  ghost function GenDecFields(m: Module, rank: string -> nat, fs: seq<Field>, dest: Ref, visited: set<string>, ctr: nat)
    : Gen<DecStmt>
    requires Acyclic(m, rank) && forall f :: f in fs ==> Mentions(m, f.typ)
    decreases Leaves(m) - visited, 1, |fs|, 0
  {
    if |fs| == 0 then GenOk([], ctr)
    else match GenDec(m, rank, fs[0].typ, Dot(dest, fs[0].name), visited, ctr)
      case GenErr => GenErr
      case GenOk(a, c) =>
        match GenDecFields(m, rank, fs[1..], dest, visited, c)
        case GenErr => GenErr
        case GenOk(b, c') => GenOk(a + b, c')
  }

  // ---- What the statements do -------------------------------------------

  function IndexOf(names: seq<string>, name: string): (i: nat)
    ensures i <= |names| && (i < |names| ==> names[i] == name)
  {
    if |names| == 0 || names[0] == name then 0 else 1 + IndexOf(names[1..], name)
  }

  predicate HasField(v: Val, name: string) {
    v.VStruct? && IndexOf(v.names, name) < |v.names| && |v.names| == |v.fields|
  }

  function Eval(vars: map<Var, Val>, ref: Ref): Option<Val> {
    match ref
    case Root(x) => if x in vars then Some(vars[x]) else None
    case Dot(r, f) =>
      match Eval(vars, r)
      case None => None
      case Some(v) => if HasField(v, f) then Some(v.fields[IndexOf(v.names, f)]) else None
  }

  // Assignment through a reference whose target exists.
  function Store(vars: map<Var, Val>, ref: Ref, v: Val): map<Var, Val>
    requires Eval(vars, ref).Some?
    decreases ref
  {
    match ref
    case Root(x) => vars[x := v]
    case Dot(r, f) =>
      var s := Eval(vars, r).value;
      Store(vars, r, s.(fields := s.fields[IndexOf(s.names, f) := v]))
  }

  /** Encoding: the variables stay, the buffer grows; None is a run the C++
      types rule out. */
  function ExecEnc(stmts: seq<EncStmt>, vars: map<Var, Val>, buf: Bytes): Option<Bytes>
    decreases stmts, 0
  {
    if |stmts| == 0 then Some(buf)
    else
      match ExecEncOne(stmts[0], vars, buf)
      case None => None
      case Some(b) => ExecEnc(stmts[1..], vars, b)
  }

  function ExecEncOne(st: EncStmt, vars: map<Var, Val>, buf: Bytes): Option<Bytes>
    decreases st, 0
  {
    var v := Eval(vars, st.ref);
    if v.None? then None
    else match st
      case Write(p, _) => if PrimOk(p, v.value) then Some(PutPrim(buf, p, v.value)) else None
      case WriteBytes(_) =>
        if v.value.VList? && AreOctets(v.value.vs) then Some(PutBytes(buf, v.value.vs)) else None
      case WriteCount(_) => if v.value.VList? then Some(PutNumber(buf, |v.value.vs| % Pow256(4), 4)) else None
      case WriteEnum(_) => if PrimOk(PLong, v.value) then Some(PutPrim(buf, PLong, v.value)) else None
      case ForEach(n, _, body) => if v.value.VList? then ExecForEach(body, n, v.value.vs, vars, buf) else None
  }

  function ExecForEach(body: seq<EncStmt>, n: nat, vs: seq<Val>, vars: map<Var, Val>, buf: Bytes): Option<Bytes>
    decreases body, 1 + |vs|
  {
    if |vs| == 0 then Some(buf)
    else match ExecEnc(body, vars[Tmp(n) := vs[0]], buf)
      case None => None
      case Some(b) => ExecForEach(body, n, vs[1..], vars, b)
  }

  datatype Outcome = Running(vars: map<Var, Val>, opts: map<nat, Option<Val>>, pos: nat) | ReturnNullopt | Stuck

  function DoRead(data: Bytes, pos: nat, reader: Reader): Option<(Val, nat)> {
    match reader case ReadPrim(p) => GetPrim(data, pos, p) case ReadBytes => GetBytes(data, pos)
  }

  function Resized(vs: seq<Val>, n: nat, dflt: Val): (r: seq<Val>)
    ensures |r| == n
  {
    if n <= |vs| then vs[..n] else vs + seq(n - |vs|, _ => dflt)
  }

  /** Decoding; `dflt` gives the value-initialized object of a type. */
  function ExecDec(stmts: seq<DecStmt>, data: Bytes, dflt: TypeSpec -> Val, s: Outcome): Outcome
    requires s.Running?
    decreases stmts, 0
  {
    if |stmts| == 0 then s
    else
      var s' := ExecDecOne(stmts[0], data, dflt, s);
      if s'.Running? then ExecDec(stmts[1..], data, dflt, s') else s'
  }

  function ExecDecOne(st: DecStmt, data: Bytes, dflt: TypeSpec -> Val, s: Outcome): Outcome
    requires s.Running?
    decreases st, 0
  {
    match st
    case Read(t, reader) =>
      (match DoRead(data, s.pos, reader)
       case None => s.(opts := s.opts[t := None])
       case Some((v, at)) => s.(opts := s.opts[t := Some(v)], pos := at))
    case CheckRead(t) =>
      if t !in s.opts then Stuck else if s.opts[t].None? then ReturnNullopt else s
    case Assign(dest, t) =>
      if t !in s.opts || s.opts[t].None? || Eval(s.vars, dest).None? then Stuck
      else s.(vars := Store(s.vars, dest, s.opts[t].value))
    case Resize(dest, t, e) =>
      var v := Eval(s.vars, dest);
      if t !in s.opts || s.opts[t].None? || !s.opts[t].value.VInt? || s.opts[t].value.n < 0
         || v.None? || !v.value.VList? then Stuck
      else s.(vars := Store(s.vars, dest, VList(Resized(v.value.vs, s.opts[t].value.n, dflt(e)))))
    case ForEachMut(n, dest, body) =>
      var v := Eval(s.vars, dest);
      if v.None? || !v.value.VList? then Stuck else ExecForEachMut(body, n, dest, 0, |v.value.vs|, data, dflt, s)
  }

  // Temporary n refers to element i of dest while the body runs.
  function ExecForEachMut(body: seq<DecStmt>, n: nat, dest: Ref, i: nat, count: nat,
                          data: Bytes, dflt: TypeSpec -> Val, s: Outcome): Outcome
    requires s.Running?
    decreases body, 1 + count - i
  {
    var v := Eval(s.vars, dest);
    if i >= count then s
    else if v.None? || !v.value.VList? || i >= |v.value.vs| then Stuck
    else
      var s' := ExecDec(body, data, dflt, s.(vars := s.vars[Tmp(n) := v.value.vs[i]]));
      if !s'.Running? then s'
      else
        var vars := s'.vars - {Tmp(n)};
        var w := Eval(vars, dest);
        if Tmp(n) !in s'.vars || w.None? || !w.value.VList? || i >= |w.value.vs| then Stuck
        else
          var stored := Store(vars, dest, VList(w.value.vs[i := s'.vars[Tmp(n)]]));
          ExecForEachMut(body, n, dest, i + 1, count, data, dflt, s'.(vars := stored))
  }

  // ---- Values of a type, and their encoding -----------------------------

  function FieldNames(fs: seq<Field>): (ns: seq<string>)
    ensures |ns| == |fs|
  {
    seq(|fs|, i requires 0 <= i < |fs| => fs[i].name)
  }

  predicate HasType(m: Module, ts: TypeSpec, v: Val)
    decreases v, 1
  {
    match Resolve(m, ts)
    case Primitive(p) => PrimOk(p, v)
    case Sequence(None) => false
    case Sequence(Some(e)) => v.VList? && |v.vs| < Pow256(4) && AllHaveType(m, e, v.vs)
    case Array(None, _) => false
    case Array(Some(e), n) => v.VList? && |v.vs| == n && AllHaveType(m, e, v.vs)
    case Named(name, _) =>
      if IsEnum(m, name) then PrimOk(PLong, v)
      else
        && FindStruct(m, name).Some? && v.VStruct?
        && v.names == FieldNames(FindStruct(m, name).value.fields)
        && FieldsHaveType(m, FindStruct(m, name).value.fields, v.fields)
  }

  predicate AllHaveType(m: Module, e: TypeSpec, vs: seq<Val>)
    decreases vs, 0
  {
    |vs| == 0 || (HasType(m, e, vs[0]) && AllHaveType(m, e, vs[1..]))
  }

  predicate FieldsHaveType(m: Module, fs: seq<Field>, vs: seq<Val>)
    decreases vs, 0
  {
    && |fs| == |vs|
    && (|vs| == 0 || (HasType(m, fs[0].typ, vs[0]) && FieldsHaveType(m, fs[1..], vs[1..])))
  }

  lemma {:induction false} AllHaveTypeAt(m: Module, e: TypeSpec, vs: seq<Val>)
    ensures AllHaveType(m, e, vs) <==> forall i :: 0 <= i < |vs| ==> HasType(m, e, vs[i])
  {
    if |vs| > 0 {
      AllHaveTypeAt(m, e, vs[1..]);
      assert forall i :: 1 <= i < |vs| ==> vs[i] == vs[1..][i - 1];
      if forall i :: 0 <= i < |vs| ==> HasType(m, e, vs[i]) {
        assert forall j :: 0 <= j < |vs[1..]| ==> vs[1..][j] == vs[j + 1];
      }
    }
  }

  lemma {:induction false} OctetsHaveType(m: Module, e: TypeSpec, vs: seq<Val>)
    requires e == Primitive(POctet) && AllHaveType(m, e, vs)
    ensures AreOctets(vs)
  {
    AllHaveTypeAt(m, e, vs);
  }

  /** CDR of a value by its type: no headers around structs, a count before a
      sequence, nothing before an array. */
  function Enc(m: Module, ts: TypeSpec, v: Val, buf: Bytes): (r: Bytes)
    requires HasType(m, ts, v)
    ensures buf <= r
    decreases v, 1
  {
    match Resolve(m, ts)
    case Primitive(p) => PutPrim(buf, p, v)
    case Sequence(Some(e)) =>
      if e == Primitive(POctet) then OctetsHaveType(m, e, v.vs); PutBytes(buf, v.vs)
      else EncAll(m, e, v.vs, PutNumber(buf, |v.vs|, 4))
    case Array(Some(e), _) => EncAll(m, e, v.vs, buf)
    case Named(name, _) =>
      if IsEnum(m, name) then PutPrim(buf, PLong, v)
      else EncFields(m, FindStruct(m, name).value.fields, v.fields, buf)
  }

  function EncAll(m: Module, e: TypeSpec, vs: seq<Val>, buf: Bytes): (r: Bytes)
    requires AllHaveType(m, e, vs)
    ensures buf <= r
    decreases vs, 0
  {
    if |vs| == 0 then buf else EncAll(m, e, vs[1..], Enc(m, e, vs[0], buf))
  }

  function EncFields(m: Module, fs: seq<Field>, vs: seq<Val>, buf: Bytes): (r: Bytes)
    requires FieldsHaveType(m, fs, vs)
    ensures buf <= r
    decreases vs, 0
  {
    if |vs| == 0 then buf else EncFields(m, fs[1..], vs[1..], Enc(m, fs[0].typ, vs[0], buf))
  }

  // ---- The generated marshal writes that encoding -----------------------

  lemma {:induction false} ExecEncConcat(a: seq<EncStmt>, b: seq<EncStmt>, vars: map<Var, Val>, buf: Bytes)
    ensures ExecEnc(a + b, vars, buf) ==
            match ExecEnc(a, vars, buf) case None => None case Some(c) => ExecEnc(b, vars, c)
    decreases |a|
  {
    if |a| == 0 {
      assert a + b == b;
    } else {
      assert (a + b)[0] == a[0] && (a + b)[1..] == a[1..] + b;
      var r := ExecEncOne(a[0], vars, buf);
      if r.Some? { ExecEncConcat(a[1..], b, vars, r.value); }
    }
  }

  lemma {:induction false} ExecEncSingle(st: EncStmt, vars: map<Var, Val>, buf: Bytes)
    ensures ExecEnc([st], vars, buf) == ExecEncOne(st, vars, buf)
  {
    var r := ExecEncOne(st, vars, buf);
    if r.Some? { assert ExecEnc([st][1..], vars, r.value) == Some(r.value); }
  }

  lemma {:induction false} ExecEncPair(a: EncStmt, b: EncStmt, vars: map<Var, Val>, buf: Bytes)
    ensures ExecEnc([a, b], vars, buf) ==
            match ExecEncOne(a, vars, buf) case None => None case Some(c) => ExecEncOne(b, vars, c)
  {
    ExecEncSingle(a, vars, buf);
    assert [a, b] == [a] + [b];
    ExecEncConcat([a], [b], vars, buf);
    if ExecEncOne(a, vars, buf).Some? { ExecEncSingle(b, vars, ExecEncOne(a, vars, buf).value); }
  }

  predicate Distinct(names: seq<string>) {
    forall i, j :: 0 <= i < j < |names| ==> names[i] != names[j]
  }

  lemma {:induction false} IndexOfDistinct(names: seq<string>, i: nat)
    requires Distinct(names) && i < |names|
    ensures IndexOf(names, names[i]) == i
  {
    if i > 0 {
      IndexOfDistinct(names[1..], i - 1);
    }
  }

  /** No struct has two members of one name, as C++ demands. */
  ghost predicate WellNamed(m: Module) {
    forall name :: FindStruct(m, name).Some? ==> Distinct(FieldNames(FindStruct(m, name).value.fields))
  }

  lemma {:induction false} MarshalIsEncoding(
    m: Module, rank: string -> nat, ts: TypeSpec, ref: Ref, visited: set<string>, ctr: nat,
    v: Val, vars: map<Var, Val>, buf: Bytes)
    requires Acyclic(m, rank) && WellNamed(m) && Mentions(m, ts)
    requires GenEnc(m, rank, ts, ref, visited, ctr).GenOk?
    requires Eval(vars, ref) == Some(v) && HasType(m, ts, v)
    ensures ExecEnc(GenEnc(m, rank, ts, ref, visited, ctr).stmts, vars, buf) == Some(Enc(m, ts, v, buf))
    decreases Leaves(m) - visited, 0, RankOf(m, rank, ts), Depth(ts), 1
  {
    match Resolve(m, ts)
    case Primitive(p) => ExecEncSingle(Write(p, ref), vars, buf);
    case Sequence(_) => MarshalSequence(m, rank, ts, ref, visited, ctr, v, vars, buf);
    case Array(_, _) => MarshalArray(m, rank, ts, ref, visited, ctr, v, vars, buf);
    case Named(_, _) => MarshalNamed(m, rank, ts, ref, visited, ctr, v, vars, buf);
  }

  // A count, then a loop over the elements.
  lemma {:induction false} ExecCounted(
    n: nat, ref: Ref, body: seq<EncStmt>, vs: seq<Val>, vars: map<Var, Val>, buf: Bytes)
    requires Eval(vars, ref) == Some(VList(vs)) && |vs| < Pow256(4)
    ensures ExecEnc([WriteCount(ref), ForEach(n, ref, body)], vars, buf)
            == ExecForEach(body, n, vs, vars, PutNumber(buf, |vs|, 4))
  {
    ExecEncPair(WriteCount(ref), ForEach(n, ref, body), vars, buf);
  }

  lemma {:induction false} MarshalSequence(
    m: Module, rank: string -> nat, ts: TypeSpec, ref: Ref, visited: set<string>, ctr: nat,
    v: Val, vars: map<Var, Val>, buf: Bytes)
    requires Acyclic(m, rank) && WellNamed(m) && Mentions(m, ts)
    requires GenEnc(m, rank, ts, ref, visited, ctr).GenOk?
    requires Eval(vars, ref) == Some(v) && HasType(m, ts, v)
    requires Resolve(m, ts).Sequence?
    ensures ExecEnc(GenEnc(m, rank, ts, ref, visited, ctr).stmts, vars, buf) == Some(Enc(m, ts, v, buf))
    decreases Leaves(m) - visited, 0, RankOf(m, rank, ts), Depth(ts), 0
  {
    var e := Resolve(m, ts).elem.value;
    if e == Primitive(POctet) {
      OctetsHaveType(m, e, v.vs);
      ExecEncSingle(WriteBytes(ref), vars, buf);
    } else {
      ResolveStaysInTree(m, ts);
      ElementIsSmaller(m, rank, ts, e);
      MarshalLoop(m, rank, e, visited, ctr, v.vs, vars, PutNumber(buf, |v.vs|, 4));
      ExecCounted(ctr, ref, GenEnc(m, rank, e, Root(Tmp(ctr)), visited, ctr + 1).stmts, v.vs, vars, buf);
    }
  }

  lemma {:induction false} MarshalArray(
    m: Module, rank: string -> nat, ts: TypeSpec, ref: Ref, visited: set<string>, ctr: nat,
    v: Val, vars: map<Var, Val>, buf: Bytes)
    requires Acyclic(m, rank) && WellNamed(m) && Mentions(m, ts)
    requires GenEnc(m, rank, ts, ref, visited, ctr).GenOk?
    requires Eval(vars, ref) == Some(v) && HasType(m, ts, v)
    requires Resolve(m, ts).Array?
    ensures ExecEnc(GenEnc(m, rank, ts, ref, visited, ctr).stmts, vars, buf) == Some(Enc(m, ts, v, buf))
    decreases Leaves(m) - visited, 0, RankOf(m, rank, ts), Depth(ts), 0
  {
    ResolveStaysInTree(m, ts);
    var e := Resolve(m, ts).elem.value;
    ElementIsSmaller(m, rank, ts, e);
    var body := GenEnc(m, rank, e, Root(Tmp(ctr)), visited, ctr + 1).stmts;
    ExecEncSingle(ForEach(ctr, ref, body), vars, buf);
    MarshalLoop(m, rank, e, visited, ctr, v.vs, vars, buf);
  }

  lemma {:induction false} MarshalNamed(
    m: Module, rank: string -> nat, ts: TypeSpec, ref: Ref, visited: set<string>, ctr: nat,
    v: Val, vars: map<Var, Val>, buf: Bytes)
    requires Acyclic(m, rank) && WellNamed(m) && Mentions(m, ts)
    requires GenEnc(m, rank, ts, ref, visited, ctr).GenOk?
    requires Eval(vars, ref) == Some(v) && HasType(m, ts, v)
    requires Resolve(m, ts).Named?
    ensures ExecEnc(GenEnc(m, rank, ts, ref, visited, ctr).stmts, vars, buf) == Some(Enc(m, ts, v, buf))
    decreases Leaves(m) - visited, 0, RankOf(m, rank, ts), Depth(ts), 0
  {
    ResolveStaysInTree(m, ts);
    var name := Resolve(m, ts).name;
    if IsEnum(m, name) {
      ExecEncSingle(WriteEnum(ref), vars, buf);
    } else {
      StructStaysInTree(m, name);
      assert v.fields[0..] == v.fields && v.names[0..] == v.names;
      MarshalFields(m, rank, FindStruct(m, name).value.fields, ref, visited + {Bare(name)}, ctr, v, 0, vars, buf);
    }
  }

  lemma {:induction false} MarshalLoop(
    m: Module, rank: string -> nat, e: TypeSpec, visited: set<string>, n: nat,
    vs: seq<Val>, vars: map<Var, Val>, buf: Bytes)
    requires Acyclic(m, rank) && WellNamed(m) && Mentions(m, e)
    requires GenEnc(m, rank, e, Root(Tmp(n)), visited, n + 1).GenOk?
    requires AllHaveType(m, e, vs)
    ensures ExecForEach(GenEnc(m, rank, e, Root(Tmp(n)), visited, n + 1).stmts, n, vs, vars, buf)
            == Some(EncAll(m, e, vs, buf))
    decreases Leaves(m) - visited, 0, RankOf(m, rank, e), Depth(e), 2 + |vs|
  {
    if |vs| > 0 {
      MarshalIsEncoding(m, rank, e, Root(Tmp(n)), visited, n + 1, vs[0], vars[Tmp(n) := vs[0]], buf);
      MarshalLoop(m, rank, e, visited, n, vs[1..], vars, Enc(m, e, vs[0], buf));
    }
  }

  lemma {:induction false} MarshalFields(
    m: Module, rank: string -> nat, fs: seq<Field>, ref: Ref, visited: set<string>, ctr: nat,
    v: Val, k: nat, vars: map<Var, Val>, buf: Bytes)
    requires Acyclic(m, rank) && WellNamed(m) && forall f :: f in fs ==> Mentions(m, f.typ)
    requires GenEncFields(m, rank, fs, ref, visited, ctr).GenOk?
    requires Eval(vars, ref) == Some(v) && v.VStruct? && |v.names| == |v.fields| && Distinct(v.names)
    requires k <= |v.fields| && v.names[k..] == FieldNames(fs) && FieldsHaveType(m, fs, v.fields[k..])
    ensures ExecEnc(GenEncFields(m, rank, fs, ref, visited, ctr).stmts, vars, buf)
            == Some(EncFields(m, fs, v.fields[k..], buf))
    decreases Leaves(m) - visited, 1, |fs|, 0, 0
  {
    if |fs| > 0 {
      var first := GenEnc(m, rank, fs[0].typ, Dot(ref, fs[0].name), visited, ctr);
      var more := GenEncFields(m, rank, fs[1..], ref, visited, first.ctr);
      assert v.names[k] == v.names[k..][0] == fs[0].name;
      IndexOfDistinct(v.names, k);
      assert v.fields[k..][0] == v.fields[k] && v.fields[k..][1..] == v.fields[k + 1..];
      assert v.names[k + 1..] == v.names[k..][1..] == FieldNames(fs[1..]);
      MarshalIsEncoding(m, rank, fs[0].typ, Dot(ref, fs[0].name), visited, ctr, v.fields[k], vars, buf);
      ExecEncConcat(first.stmts, more.stmts, vars, buf);
      MarshalFields(m, rank, fs[1..], ref, visited, first.ctr, v, k + 1, vars, Enc(m, fs[0].typ, v.fields[k], buf));
    }
  }

  // ---- Reading and assigning through references -------------------------

  function RootOf(ref: Ref): Var {
    match ref case Root(x) => x case Dot(r, _) => RootOf(r)
  }

  lemma {:induction false} StoreThenEval(vars: map<Var, Val>, ref: Ref, v: Val)
    requires Eval(vars, ref).Some?
    ensures Eval(Store(vars, ref, v), ref) == Some(v)
    decreases ref
  {
    match ref
    case Root(x) =>
    case Dot(r, f) =>
      var s := Eval(vars, r).value;
      StoreThenEval(vars, r, s.(fields := s.fields[IndexOf(s.names, f) := v]));
  }

  lemma {:induction false} StoreTwice(vars: map<Var, Val>, ref: Ref, v: Val, w: Val)
    requires Eval(vars, ref).Some?
    ensures Eval(Store(vars, ref, v), ref).Some?
    ensures Store(Store(vars, ref, v), ref, w) == Store(vars, ref, w)
    decreases ref
  {
    StoreThenEval(vars, ref, v);
    match ref
    case Root(x) =>
    case Dot(r, f) =>
      var s := Eval(vars, r).value;
      var i := IndexOf(s.names, f);
      var sv, sw := s.(fields := s.fields[i := v]), s.(fields := s.fields[i := w]);
      StoreThenEval(vars, r, sv);
      StoreTwice(vars, r, sv, sw);
      assert sv.fields[i := w] == sw.fields;
  }

  lemma {:induction false} StoreSame(vars: map<Var, Val>, ref: Ref, v: Val)
    requires Eval(vars, ref) == Some(v)
    ensures Store(vars, ref, v) == vars
    decreases ref
  {
    match ref
    case Root(x) =>
    case Dot(r, f) =>
      var s := Eval(vars, r).value;
      assert s.fields[IndexOf(s.names, f) := v] == s.fields;
      StoreSame(vars, r, s);
  }

  lemma {:induction false} StoreKeepsVars(vars: map<Var, Val>, ref: Ref, v: Val)
    requires Eval(vars, ref).Some?
    ensures Store(vars, ref, v).Keys == vars.Keys
    decreases ref
  {
    match ref
    case Root(x) =>
    case Dot(r, f) =>
      var s := Eval(vars, r).value;
      StoreKeepsVars(vars, r, s.(fields := s.fields[IndexOf(s.names, f) := v]));
  }

  // ---- The generated unmarshal reads it back ----------------------------

  /** What stays fixed while one buffer is decoded. */
  datatype Setting = Setting(m: Module, rank: string -> nat, data: Bytes, dflt: TypeSpec -> Val)

  // Value-initialized objects have their type, where the type has any value.
  ghost predicate Defaults(m: Module, dflt: TypeSpec -> Val) {
    forall ts :: Inhabited(m, ts) ==> HasType(m, ts, dflt(ts))
  }

  ghost predicate Inhabited(m: Module, ts: TypeSpec) { exists v :: HasType(m, ts, v) }

  ghost predicate Sound(c: Setting) {
    Acyclic(c.m, c.rank) && WellNamed(c.m) && Defaults(c.m, c.dflt)
  }

  // The temporaries from ctr on are not in use, and dest is not one of them.
  ghost predicate Unused(ctr: nat, dest: Ref, vars: map<Var, Val>) {
    && (forall k: nat :: ctr <= k ==> Tmp(k) !in vars)
    && (RootOf(dest).Tmp? ==> RootOf(dest).n < ctr)
  }

  // Running from s reaches position pos with v stored in dest.
  ghost predicate Reads(r: Outcome, s: Outcome, dest: Ref, v: Val, pos: nat)
    requires s.Running?
  {
    r.Running? && Eval(s.vars, dest).Some? && r.vars == Store(s.vars, dest, v) && r.pos == pos
  }

  lemma {:induction false} ExecDecConcat(
    a: seq<DecStmt>, b: seq<DecStmt>, data: Bytes, dflt: TypeSpec -> Val, s: Outcome)
    requires s.Running?
    ensures ExecDec(a + b, data, dflt, s) ==
            var r := ExecDec(a, data, dflt, s); if r.Running? then ExecDec(b, data, dflt, r) else r
    decreases |a|
  {
    if |a| == 0 {
      assert a + b == b;
    } else {
      assert (a + b)[0] == a[0] && (a + b)[1..] == a[1..] + b;
      var r := ExecDecOne(a[0], data, dflt, s);
      if r.Running? { ExecDecConcat(a[1..], b, data, dflt, r); }
    }
  }

  lemma {:induction false} ExecDecSingle(st: DecStmt, data: Bytes, dflt: TypeSpec -> Val, s: Outcome)
    requires s.Running?
    ensures ExecDec([st], data, dflt, s) == ExecDecOne(st, data, dflt, s)
  {
    var r := ExecDecOne(st, data, dflt, s);
    if r.Running? { assert |[st][1..]| == 0; }
  }

  lemma {:induction false} ExecDecCons(st: DecStmt, more: seq<DecStmt>, data: Bytes, dflt: TypeSpec -> Val, s: Outcome)
    requires s.Running?
    ensures ExecDec([st] + more, data, dflt, s) ==
            var r := ExecDecOne(st, data, dflt, s); if r.Running? then ExecDec(more, data, dflt, r) else r
  {
    ExecDecSingle(st, data, dflt, s);
    ExecDecConcat([st], more, data, dflt, s);
  }

  // Read, check and one more statement.
  lemma {:induction false} ReadAndCheck(
    t: nat, reader: Reader, more: seq<DecStmt>, data: Bytes, dflt: TypeSpec -> Val, s: Outcome, v: Val, at: nat)
    requires s.Running? && DoRead(data, s.pos, reader) == Some((v, at))
    ensures ExecDec([Read(t, reader)] + ([CheckRead(t)] + more), data, dflt, s)
            == ExecDec(more, data, dflt, s.(opts := s.opts[t := Some(v)], pos := at))
  {
    ExecDecCons(Read(t, reader), [CheckRead(t)] + more, data, dflt, s);
    ExecDecCons(CheckRead(t), more, data, dflt, s.(opts := s.opts[t := Some(v)], pos := at));
  }

  lemma {:induction false} PrimDecodeReads(
    reader: Reader, dest: Ref, ctr: nat, data: Bytes, dflt: TypeSpec -> Val, s: Outcome, v: Val, at: nat)
    requires s.Running? && Eval(s.vars, dest).Some? && DoRead(data, s.pos, reader) == Some((v, at))
    ensures Reads(ExecDec(PrimDecode(reader, dest, ctr).stmts, data, dflt, s), s, dest, v, at)
  {
    assert [Read(ctr, reader), CheckRead(ctr), Assign(dest, ctr)]
        == [Read(ctr, reader)] + ([CheckRead(ctr)] + [Assign(dest, ctr)]);
    ReadAndCheck(ctr, reader, [Assign(dest, ctr)], data, dflt, s, v, at);
    ExecDecSingle(Assign(dest, ctr), data, dflt, s.(opts := s.opts[ctr := Some(v)], pos := at));
  }

  lemma {:induction false} UnmarshalInverts(
    c: Setting, ts: TypeSpec, dest: Ref, visited: set<string>, ctr: nat, d0: Val, v: Val, s: Outcome, pre: Bytes)
    requires Sound(c) && Mentions(c.m, ts) && GenDec(c.m, c.rank, ts, dest, visited, ctr).GenOk?
    requires s.Running? && Eval(s.vars, dest) == Some(d0) && Unused(ctr, dest, s.vars)
    requires HasType(c.m, ts, d0) && HasType(c.m, ts, v)
    requires s.pos == |pre| && Enc(c.m, ts, v, pre) <= c.data
    ensures Reads(ExecDec(GenDec(c.m, c.rank, ts, dest, visited, ctr).stmts, c.data, c.dflt, s), s, dest, v,
                  |Enc(c.m, ts, v, pre)|)
    decreases Leaves(c.m) - visited, 0, RankOf(c.m, c.rank, ts), Depth(ts), 1
  {
    match Resolve(c.m, ts)
    case Primitive(p) =>
      PrimRoundTrip(pre, p, v, c.data);
      PrimDecodeReads(ReadPrim(p), dest, ctr, c.data, c.dflt, s, v, |Enc(c.m, ts, v, pre)|);
    case Sequence(_) => UnmarshalSequence(c, ts, dest, visited, ctr, d0, v, s, pre);
    case Array(_, _) => UnmarshalArray(c, ts, dest, visited, ctr, d0, v, s, pre);
    case Named(_, _) => UnmarshalNamed(c, ts, dest, visited, ctr, d0, v, s, pre);
  }

  lemma {:induction false} ResizedHasType(
    m: Module, e: TypeSpec, vs: seq<Val>, n: nat, dflt: TypeSpec -> Val, ws: seq<Val>)
    requires Defaults(m, dflt) && AllHaveType(m, e, vs) && AllHaveType(m, e, ws) && |ws| == n
    ensures AllHaveType(m, e, Resized(vs, n, dflt(e)))
  {
    AllHaveTypeAt(m, e, vs);
    AllHaveTypeAt(m, e, ws);
    AllHaveTypeAt(m, e, Resized(vs, n, dflt(e)));
    if n > 0 { assert HasType(m, e, ws[0]) && Inhabited(m, e); }
  }

  lemma {:induction false} UnmarshalSequence(
    c: Setting, ts: TypeSpec, dest: Ref, visited: set<string>, ctr: nat, d0: Val, v: Val, s: Outcome, pre: Bytes)
    requires Sound(c) && Mentions(c.m, ts) && GenDec(c.m, c.rank, ts, dest, visited, ctr).GenOk?
    requires Resolve(c.m, ts).Sequence?
    requires s.Running? && Eval(s.vars, dest) == Some(d0) && Unused(ctr, dest, s.vars)
    requires HasType(c.m, ts, d0) && HasType(c.m, ts, v)
    requires s.pos == |pre| && Enc(c.m, ts, v, pre) <= c.data
    ensures Reads(ExecDec(GenDec(c.m, c.rank, ts, dest, visited, ctr).stmts, c.data, c.dflt, s), s, dest, v,
                  |Enc(c.m, ts, v, pre)|)
    decreases Leaves(c.m) - visited, 0, RankOf(c.m, c.rank, ts), Depth(ts), 0
  {
    var e := Resolve(c.m, ts).elem.value;
    if e == Primitive(POctet) {
      OctetsHaveType(c.m, e, v.vs);
      BytesRoundTrip(pre, v.vs, c.data);
      PrimDecodeReads(ReadBytes, dest, ctr, c.data, c.dflt, s, v, |Enc(c.m, ts, v, pre)|);
    } else {
      ResolveStaysInTree(c.m, ts);
      ElementIsSmaller(c.m, c.rank, ts, e);
      UnmarshalCounted(c, e, dest, visited, ctr, d0.vs, v.vs, s, pre);
    }
  }

  function CountedDecode(dest: Ref, ctr: nat, e: TypeSpec, body: seq<DecStmt>): seq<DecStmt> {
    [Read(ctr, ReadPrim(PULong)), CheckRead(ctr), Resize(dest, ctr, e), ForEachMut(ctr + 1, dest, body)]
  }

  // The count, the resize, and the loop over the resized elements.
  lemma {:induction false} UnmarshalCounted(
    c: Setting, e: TypeSpec, dest: Ref, visited: set<string>, ctr: nat, ds: seq<Val>, vs: seq<Val>,
    s: Outcome, pre: Bytes)
    requires Sound(c) && Mentions(c.m, e) && GenDec(c.m, c.rank, e, Root(Tmp(ctr + 1)), visited, ctr + 2).GenOk?
    requires s.Running? && Eval(s.vars, dest) == Some(VList(ds)) && Unused(ctr, dest, s.vars)
    requires AllHaveType(c.m, e, ds) && AllHaveType(c.m, e, vs) && |vs| < Pow256(4)
    requires s.pos == |pre| && EncAll(c.m, e, vs, PutNumber(pre, |vs|, 4)) <= c.data
    ensures var body := GenDec(c.m, c.rank, e, Root(Tmp(ctr + 1)), visited, ctr + 2).stmts;
      Reads(ExecDec(CountedDecode(dest, ctr, e, body), c.data, c.dflt, s), s, dest, VList(vs),
            |EncAll(c.m, e, vs, PutNumber(pre, |vs|, 4))|)
    decreases Leaves(c.m) - visited, 0, RankOf(c.m, c.rank, e), Depth(e), 3 + |vs|
  {
    var body := GenDec(c.m, c.rank, e, Root(Tmp(ctr + 1)), visited, ctr + 2).stmts;
    var w := PutNumber(pre, |vs|, 4);
    NumberRoundTrip(pre, |vs|, 4, c.data);
    ExecCountedDecode(dest, ctr, e, body, ds, |vs|, |w|, c.data, c.dflt, s);
    var cur := Resized(ds, |vs|, c.dflt(e));
    AfterStore(s.vars, dest, VList(cur), VList(vs), ctr, ctr + 1);
    ResizedHasType(c.m, e, ds, |vs|, c.dflt, vs);
    UnmarshalLoop(c, e, dest, visited, ctr + 1, 0, cur, vs, Resizing(s, dest, ctr, |vs|, |w|, cur), w);
  }

  // The state once the count is read and dest resized.
  function Resizing(s: Outcome, dest: Ref, t: nat, n: nat, at: nat, cur: seq<Val>): Outcome
    requires s.Running? && Eval(s.vars, dest).Some?
  {
    Running(Store(s.vars, dest, VList(cur)), s.opts[t := Some(VInt(n))], at)
  }

  lemma {:induction false} ExecCountedDecode(
    dest: Ref, ctr: nat, e: TypeSpec, body: seq<DecStmt>, ds: seq<Val>, n: nat, at: nat,
    data: Bytes, dflt: TypeSpec -> Val, s: Outcome)
    requires s.Running? && Eval(s.vars, dest) == Some(VList(ds))
    requires DoRead(data, s.pos, ReadPrim(PULong)) == Some((VInt(n), at))
    ensures ExecDec(CountedDecode(dest, ctr, e, body), data, dflt, s) ==
            ExecForEachMut(body, ctr + 1, dest, 0, n, data, dflt,
                           Resizing(s, dest, ctr, n, at, Resized(ds, n, dflt(e))))
  {
    var loop := [Resize(dest, ctr, e)] + [ForEachMut(ctr + 1, dest, body)];
    assert CountedDecode(dest, ctr, e, body) == [Read(ctr, ReadPrim(PULong))] + ([CheckRead(ctr)] + loop);
    ReadAndCheck(ctr, ReadPrim(PULong), loop, data, dflt, s, VInt(n), at);
    var s1 := s.(opts := s.opts[ctr := Some(VInt(n))], pos := at);
    var s2 := Resizing(s, dest, ctr, n, at, Resized(ds, n, dflt(e)));
    ExecDecCons(Resize(dest, ctr, e), [ForEachMut(ctr + 1, dest, body)], data, dflt, s1);
    ExecDecSingle(ForEachMut(ctr + 1, dest, body), data, dflt, s2);
    StoreThenEval(s.vars, dest, VList(Resized(ds, n, dflt(e))));
  }

  lemma {:induction false} UnmarshalArray(
    c: Setting, ts: TypeSpec, dest: Ref, visited: set<string>, ctr: nat, d0: Val, v: Val, s: Outcome, pre: Bytes)
    requires Sound(c) && Mentions(c.m, ts) && GenDec(c.m, c.rank, ts, dest, visited, ctr).GenOk?
    requires Resolve(c.m, ts).Array?
    requires s.Running? && Eval(s.vars, dest) == Some(d0) && Unused(ctr, dest, s.vars)
    requires HasType(c.m, ts, d0) && HasType(c.m, ts, v)
    requires s.pos == |pre| && Enc(c.m, ts, v, pre) <= c.data
    ensures Reads(ExecDec(GenDec(c.m, c.rank, ts, dest, visited, ctr).stmts, c.data, c.dflt, s), s, dest, v,
                  |Enc(c.m, ts, v, pre)|)
    decreases Leaves(c.m) - visited, 0, RankOf(c.m, c.rank, ts), Depth(ts), 0
  {
    ResolveStaysInTree(c.m, ts);
    var e := Resolve(c.m, ts).elem.value;
    ElementIsSmaller(c.m, c.rank, ts, e);
    var body := GenDec(c.m, c.rank, e, Root(Tmp(ctr)), visited, ctr + 1).stmts;
    ExecDecSingle(ForEachMut(ctr, dest, body), c.data, c.dflt, s);
    UnmarshalLoop(c, e, dest, visited, ctr, 0, d0.vs, v.vs, s, pre);
  }

  // One iteration that turns the element into x.
  lemma {:induction false} ForEachMutStep(
    body: seq<DecStmt>, n: nat, dest: Ref, i: nat, count: nat, data: Bytes, dflt: TypeSpec -> Val,
    s: Outcome, cur: seq<Val>, x: Val, r: Outcome)
    requires s.Running? && Eval(s.vars, dest) == Some(VList(cur)) && i < count == |cur| && Unused(n, dest, s.vars)
    requires r == ExecDec(body, data, dflt, s.(vars := s.vars[Tmp(n) := cur[i]]))
    requires r.Running? && r.vars == s.vars[Tmp(n) := x]
    ensures ExecForEachMut(body, n, dest, i, count, data, dflt, s) ==
            ExecForEachMut(body, n, dest, i + 1, count, data, dflt, r.(vars := Store(s.vars, dest, VList(cur[i := x]))))
  {
    assert r.vars - {Tmp(n)} == s.vars;
  }

  // After a store to dest, the rest goes on with dest as if from the start.
  lemma {:induction false} AfterStore(vars: map<Var, Val>, dest: Ref, w: Val, v: Val, ctr: nat, ctr': nat)
    requires Eval(vars, dest).Some? && Unused(ctr, dest, vars) && ctr <= ctr'
    ensures Eval(Store(vars, dest, w), dest) == Some(w) && Unused(ctr', dest, Store(vars, dest, w))
    ensures Store(Store(vars, dest, w), dest, v) == Store(vars, dest, v)
  {
    StoreThenEval(vars, dest, w);
    StoreKeepsVars(vars, dest, w);
    StoreTwice(vars, dest, w, v);
  }

  // Elements [0, i) of dest are read; the loop reads the others.
  lemma {:induction false} UnmarshalLoop(
    c: Setting, e: TypeSpec, dest: Ref, visited: set<string>, n: nat, i: nat,
    cur: seq<Val>, vs: seq<Val>, s: Outcome, pre: Bytes)
    requires Sound(c) && Mentions(c.m, e) && GenDec(c.m, c.rank, e, Root(Tmp(n)), visited, n + 1).GenOk?
    requires s.Running? && Eval(s.vars, dest) == Some(VList(cur)) && Unused(n, dest, s.vars)
    requires i <= |vs| == |cur| && cur[..i] == vs[..i]
    requires AllHaveType(c.m, e, cur[i..]) && AllHaveType(c.m, e, vs[i..])
    requires s.pos == |pre| && EncAll(c.m, e, vs[i..], pre) <= c.data
    ensures Reads(ExecForEachMut(GenDec(c.m, c.rank, e, Root(Tmp(n)), visited, n + 1).stmts, n, dest, i, |vs|,
                                 c.data, c.dflt, s),
                  s, dest, VList(vs), |EncAll(c.m, e, vs[i..], pre)|)
    decreases Leaves(c.m) - visited, 0, RankOf(c.m, c.rank, e), Depth(e), 2 + |vs| - i
  {
    if i == |vs| {
      assert cur == vs;
      StoreSame(s.vars, dest, VList(cur));
    } else {
      var body := GenDec(c.m, c.rank, e, Root(Tmp(n)), visited, n + 1).stmts;
      Uncons(vs, i);
      Uncons(cur, i);
      var s1 := s.(vars := s.vars[Tmp(n) := cur[i]]);
      var next := Enc(c.m, e, vs[i], pre);
      assert next <= EncAll(c.m, e, vs[i..], pre);
      UnmarshalInverts(c, e, Root(Tmp(n)), visited, n + 1, cur[i], vs[i], s1, pre);
      var r := ExecDec(body, c.data, c.dflt, s1);
      assert r.vars == s.vars[Tmp(n) := vs[i]];
      ForEachMutStep(body, n, dest, i, |vs|, c.data, c.dflt, s, cur, vs[i], r);
      var cur' := cur[i := vs[i]];
      AfterStore(s.vars, dest, VList(cur'), VList(vs), n, n);
      OneMoreEqual(cur, vs, i);
      var s2 := r.(vars := Store(s.vars, dest, VList(cur')));
      UnmarshalLoop(c, e, dest, visited, n, i + 1, cur', vs, s2, next);
    }
  }

  lemma {:induction false} Uncons<T>(s: seq<T>, k: nat)
    requires k < |s|
    ensures s[k..][0] == s[k] && s[k..][1..] == s[k + 1..]
  {}

  lemma {:induction false} OneMoreEqual<T>(a: seq<T>, b: seq<T>, k: nat)
    requires k < |a| == |b| && a[..k] == b[..k]
    ensures a[k := b[k]][..k + 1] == b[..k + 1] && a[k := b[k]][k + 1..] == a[k + 1..]
  {
    assert a[k := b[k]][..k + 1] == a[..k] + [b[k]] == b[..k + 1];
  }

  lemma {:induction false} UnmarshalNamed(
    c: Setting, ts: TypeSpec, dest: Ref, visited: set<string>, ctr: nat, d0: Val, v: Val, s: Outcome, pre: Bytes)
    requires Sound(c) && Mentions(c.m, ts) && GenDec(c.m, c.rank, ts, dest, visited, ctr).GenOk?
    requires Resolve(c.m, ts).Named?
    requires s.Running? && Eval(s.vars, dest) == Some(d0) && Unused(ctr, dest, s.vars)
    requires HasType(c.m, ts, d0) && HasType(c.m, ts, v)
    requires s.pos == |pre| && Enc(c.m, ts, v, pre) <= c.data
    ensures Reads(ExecDec(GenDec(c.m, c.rank, ts, dest, visited, ctr).stmts, c.data, c.dflt, s), s, dest, v,
                  |Enc(c.m, ts, v, pre)|)
    decreases Leaves(c.m) - visited, 0, RankOf(c.m, c.rank, ts), Depth(ts), 0
  {
    ResolveStaysInTree(c.m, ts);
    var name := Resolve(c.m, ts).name;
    if IsEnum(c.m, name) {
      PrimRoundTrip(pre, PLong, v, c.data);
      PrimDecodeReads(ReadPrim(PLong), dest, ctr, c.data, c.dflt, s, v, |Enc(c.m, ts, v, pre)|);
    } else {
      StructStaysInTree(c.m, name);
      assert v.fields[0..] == v.fields && v.names[0..] == v.names && d0.fields[0..] == d0.fields;
      UnmarshalFields(c, FindStruct(c.m, name).value.fields, dest, visited + {Bare(name)}, ctr, 0, d0, v, s, pre);
    }
  }

  // Fields [0, k) of dest are read; `fs` are the others.
  lemma {:induction false} UnmarshalFields(
    c: Setting, fs: seq<Field>, dest: Ref, visited: set<string>, ctr: nat, k: nat, d: Val, v: Val,
    s: Outcome, pre: Bytes)
    requires Sound(c) && (forall f :: f in fs ==> Mentions(c.m, f.typ))
    requires GenDecFields(c.m, c.rank, fs, dest, visited, ctr).GenOk?
    requires s.Running? && Eval(s.vars, dest) == Some(d) && Unused(ctr, dest, s.vars)
    requires d.VStruct? && v.VStruct? && d.names == v.names && |d.names| == |d.fields| == |v.fields|
    requires Distinct(v.names)
    requires k <= |v.fields| && v.names[k..] == FieldNames(fs) && d.fields[..k] == v.fields[..k]
    requires FieldsHaveType(c.m, fs, d.fields[k..]) && FieldsHaveType(c.m, fs, v.fields[k..])
    requires s.pos == |pre| && EncFields(c.m, fs, v.fields[k..], pre) <= c.data
    ensures Reads(ExecDec(GenDecFields(c.m, c.rank, fs, dest, visited, ctr).stmts, c.data, c.dflt, s), s, dest, v,
                  |EncFields(c.m, fs, v.fields[k..], pre)|)
    decreases Leaves(c.m) - visited, 1, |fs|, 0, 0
  {
    hide Enc, GenDec, HasType;
    if |fs| == 0 {
      assert d == v;
      StoreSame(s.vars, dest, v);
    } else {
      var first := GenDec(c.m, c.rank, fs[0].typ, Dot(dest, fs[0].name), visited, ctr);
      var more := GenDecFields(c.m, c.rank, fs[1..], dest, visited, first.ctr);
      Uncons(v.names, k);
      Uncons(v.fields, k);
      Uncons(d.fields, k);
      IndexOfDistinct(v.names, k);
      OneMoreEqual(d.fields, v.fields, k);
      assert v.names[k] == fs[0].name && v.names[k + 1..] == FieldNames(fs[1..]);
      var next := Enc(c.m, fs[0].typ, v.fields[k], pre);
      assert next <= EncFields(c.m, fs, v.fields[k..], pre);
      var d' := d.(fields := d.fields[k := v.fields[k]]);
      GenDecCounts(c.m, c.rank, fs[0].typ, Dot(dest, fs[0].name), visited, ctr);
      AfterStore(s.vars, dest, d', v, ctr, first.ctr);
      UnmarshalField(c, fs[0], dest, visited, ctr, k, d, v, s, pre);
      ExecDecConcat(first.stmts, more.stmts, c.data, c.dflt, s);
      UnmarshalFields(c, fs[1..], dest, visited, first.ctr, k + 1, d', v,
                      ExecDec(first.stmts, c.data, c.dflt, s), next);
    }
  }

  lemma {:induction false} UnmarshalField(
    c: Setting, f: Field, dest: Ref, visited: set<string>, ctr: nat, k: nat, d: Val, v: Val, s: Outcome, pre: Bytes)
    requires Sound(c) && Mentions(c.m, f.typ)
    requires GenDec(c.m, c.rank, f.typ, Dot(dest, f.name), visited, ctr).GenOk?
    requires s.Running? && Eval(s.vars, dest) == Some(d) && Unused(ctr, dest, s.vars)
    requires d.VStruct? && v.VStruct? && d.names == v.names && |d.names| == |d.fields| == |v.fields|
    requires k < |v.fields| && v.names[k] == f.name && IndexOf(v.names, f.name) == k
    requires HasType(c.m, f.typ, d.fields[k]) && HasType(c.m, f.typ, v.fields[k])
    requires s.pos == |pre| && Enc(c.m, f.typ, v.fields[k], pre) <= c.data
    ensures Reads(ExecDec(GenDec(c.m, c.rank, f.typ, Dot(dest, f.name), visited, ctr).stmts, c.data, c.dflt, s), s,
                  dest, d.(fields := d.fields[k := v.fields[k]]), |Enc(c.m, f.typ, v.fields[k], pre)|)
    decreases Leaves(c.m) - visited, 0, RankOf(c.m, c.rank, f.typ), Depth(f.typ), 2
  {
    UnmarshalInverts(c, f.typ, Dot(dest, f.name), visited, ctr, d.fields[k], v.fields[k], s, pre);
  }

  // The counter of temporaries only grows.
  lemma {:induction false} GenDecCounts(
    m: Module, rank: string -> nat, ts: TypeSpec, dest: Ref, visited: set<string>, ctr: nat)
    requires Acyclic(m, rank) && Mentions(m, ts) && GenDec(m, rank, ts, dest, visited, ctr).GenOk?
    ensures ctr <= GenDec(m, rank, ts, dest, visited, ctr).ctr
    decreases Leaves(m) - visited, 0, RankOf(m, rank, ts), Depth(ts)
  {
    ResolveStaysInTree(m, ts);
    match Resolve(m, ts)
    case Sequence(Some(e)) =>
      if e != Primitive(POctet) {
        ElementIsSmaller(m, rank, ts, e);
        GenDecCounts(m, rank, e, Root(Tmp(ctr + 1)), visited, ctr + 2);
      }
    case Array(Some(e), _) =>
      ElementIsSmaller(m, rank, ts, e);
      GenDecCounts(m, rank, e, Root(Tmp(ctr)), visited, ctr + 1);
    case Named(name, _) =>
      if !IsEnum(m, name) {
        StructStaysInTree(m, name);
        GenDecFieldsCount(m, rank, FindStruct(m, name).value.fields, dest, visited + {Bare(name)}, ctr);
      }
    case _ =>
  }

  lemma {:induction false} GenDecFieldsCount(
    m: Module, rank: string -> nat, fs: seq<Field>, dest: Ref, visited: set<string>, ctr: nat)
    requires Acyclic(m, rank) && (forall f :: f in fs ==> Mentions(m, f.typ))
    requires GenDecFields(m, rank, fs, dest, visited, ctr).GenOk?
    ensures ctr <= GenDecFields(m, rank, fs, dest, visited, ctr).ctr
    decreases Leaves(m) - visited, 1, |fs|, 0
  {
    if |fs| > 0 {
      GenDecCounts(m, rank, fs[0].typ, Dot(dest, fs[0].name), visited, ctr);
      var first := GenDec(m, rank, fs[0].typ, Dot(dest, fs[0].name), visited, ctr);
      GenDecFieldsCount(m, rank, fs[1..], dest, visited, first.ctr);
    }
  }

  // ---- Encode and decode generation fail together -----------------------

  lemma {:induction false} SameSuccess(
    m: Module, rank: string -> nat, ts: TypeSpec, ref: Ref, dest: Ref, visited: set<string>, c: nat, d: nat)
    requires Acyclic(m, rank) && Mentions(m, ts)
    ensures GenEnc(m, rank, ts, ref, visited, c).GenOk? <==> GenDec(m, rank, ts, dest, visited, d).GenOk?
    decreases Leaves(m) - visited, 0, RankOf(m, rank, ts), Depth(ts)
  {
    ResolveStaysInTree(m, ts);
    match Resolve(m, ts)
    case Sequence(Some(e)) =>
      if e != Primitive(POctet) {
        ElementIsSmaller(m, rank, ts, e);
        SameSuccess(m, rank, e, Root(Tmp(c)), Root(Tmp(d + 1)), visited, c + 1, d + 2);
      }
    case Array(Some(e), _) =>
      ElementIsSmaller(m, rank, ts, e);
      SameSuccess(m, rank, e, Root(Tmp(c)), Root(Tmp(d)), visited, c + 1, d + 1);
    case Named(name, _) =>
      if !IsEnum(m, name) && FindStruct(m, name).Some? && Bare(name) !in visited {
        StructStaysInTree(m, name);
        SameSuccessFields(m, rank, FindStruct(m, name).value.fields, ref, dest, visited + {Bare(name)}, c, d);
      }
    case _ =>
  }

  lemma {:induction false} SameSuccessFields(
    m: Module, rank: string -> nat, fs: seq<Field>, ref: Ref, dest: Ref, visited: set<string>, c: nat, d: nat)
    requires Acyclic(m, rank) && forall f :: f in fs ==> Mentions(m, f.typ)
    ensures GenEncFields(m, rank, fs, ref, visited, c).GenOk? <==> GenDecFields(m, rank, fs, dest, visited, d).GenOk?
    decreases Leaves(m) - visited, 1, |fs|, 0
  {
    if |fs| > 0 {
      SameSuccess(m, rank, fs[0].typ, Dot(ref, fs[0].name), Dot(dest, fs[0].name), visited, c, d);
      var e, g := GenEnc(m, rank, fs[0].typ, Dot(ref, fs[0].name), visited, c),
                  GenDec(m, rank, fs[0].typ, Dot(dest, fs[0].name), visited, d);
      if e.GenOk? { SameSuccessFields(m, rank, fs[1..], ref, dest, visited, e.ctr, g.ctr); }
    }
  }

  // ---- When generation succeeds -----------------------------------------

  // Encode generation of a type succeeds exactly when no path of types from it
  // is blocked.
  lemma {:induction false} TypeGenerates(
    m: Module, rank: string -> nat, ts: TypeSpec, ref: Ref, visited: set<string>, c: nat)
    requires Acyclic(m, rank) && Mentions(m, ts)
    ensures GenEnc(m, rank, ts, ref, visited, c).GenOk? <==> IsClear(m, ts, visited)
    decreases Leaves(m) - visited, 0, RankOf(m, rank, ts), Depth(ts)
  {
    hide IsClear;
    ResolveStaysInTree(m, ts);
    ClearStep(m, ts, visited);
    assert visited + {} == visited;
    match Resolve(m, ts)
    case Sequence(Some(e)) =>
      assert LeadsTo(m, ts, e);
      if e == Primitive(POctet) {
        ClearStep(m, e, visited);
      } else {
        ElementIsSmaller(m, rank, ts, e);
        TypeGenerates(m, rank, e, Root(Tmp(c)), visited, c + 1);
      }
    case Array(Some(e), _) =>
      assert LeadsTo(m, ts, e);
      ElementIsSmaller(m, rank, ts, e);
      TypeGenerates(m, rank, e, Root(Tmp(c)), visited, c + 1);
    case Named(name, _) =>
      if StructAt(m, ts).Some? && Bare(name) !in visited {
        StructStaysInTree(m, name);
        var fs := FindStruct(m, name).value.fields;
        FieldsGenerate(m, rank, fs, ref, visited + {Bare(name)}, c);
        assert forall f :: f in fs ==> LeadsTo(m, ts, f.typ);
      }
    case _ =>
  }

  /** The same for a list of fields.  A path goes to the element of a sequence
      or array, through a typedef, or into the fields of a struct; it is blocked
      by a missing element, an unknown name, or a struct's bare name it met. */
  lemma {:induction false} FieldsGenerate(
    m: Module, rank: string -> nat, fs: seq<Field>, ref: Ref, visited: set<string>, c: nat)
    requires Acyclic(m, rank) && forall f :: f in fs ==> Mentions(m, f.typ)
    ensures GenEncFields(m, rank, fs, ref, visited, c).GenOk? <==> forall f :: f in fs ==> IsClear(m, f.typ, visited)
    decreases Leaves(m) - visited, 1, |fs|, 0
  {
    hide IsClear;
    if |fs| > 0 {
      TypeGenerates(m, rank, fs[0].typ, Dot(ref, fs[0].name), visited, c);
      var e := GenEnc(m, rank, fs[0].typ, Dot(ref, fs[0].name), visited, c);
      if e.GenOk? { FieldsGenerate(m, rank, fs[1..], ref, visited, e.ctr); }
      assert forall f :: f in fs <==> f == fs[0] || f in fs[1..];
    }
  }

  /** A struct's codec can be generated: no path of types from its fields is
      blocked. */
  ghost predicate Generable(m: Module, st: Struct) {
    forall f :: f in st.fields ==> IsClear(m, f.typ, {})
  }

  lemma {:induction false} CodecGenerates(m: Module, rank: string -> nat, st: Struct, c: nat, d: nat)
    requires Acyclic(m, rank) && InTree(m, st)
    ensures GenEncFields(m, rank, st.fields, Root(Param), {}, c).GenOk? <==> Generable(m, st)
    ensures GenDecFields(m, rank, st.fields, Root(Param), {}, d).GenOk? <==> Generable(m, st)
  {
    hide IsClear;
    FieldsGenerate(m, rank, st.fields, Root(Param), {}, c);
    SameSuccessFields(m, rank, st.fields, Root(Param), Root(Param), {}, c, d);
  }

  // ---- A struct's codec -------------------------------------------------

  ghost predicate InTree(m: Module, st: Struct) {
    forall f :: f in st.fields ==> Mentions(m, f.typ)
  }

  predicate IsValueOf(m: Module, st: Struct, v: Val) {
    v.VStruct? && v.names == FieldNames(st.fields) && FieldsHaveType(m, st.fields, v.fields)
  }

  // The body of marshal, run on v.
  ghost function Marshal(m: Module, rank: string -> nat, st: Struct, ctr: nat, v: Val): Option<Bytes>
    requires Acyclic(m, rank) && InTree(m, st)
  {
    match GenEncFields(m, rank, st.fields, Root(Param), {}, ctr)
    case GenErr => None
    case GenOk(stmts, _) => ExecEnc(stmts, map[Param := v], HEADER)
  }

  // The body of unmarshal, run on data, with v starting as d0: the value and
  // the position reached.
  ghost function Unmarshal(c: Setting, st: Struct, ctr: nat, d0: Val): Option<(Val, nat)>
    requires Acyclic(c.m, c.rank) && InTree(c.m, st)
  {
    if !Accepts(c.data) then None
    else match GenDecFields(c.m, c.rank, st.fields, Root(Param), {}, ctr)
      case GenErr => None
      case GenOk(stmts, _) =>
        var r := ExecDec(stmts, c.data, c.dflt, Running(map[Param := d0], map[], 4));
        if r.Running? && Param in r.vars then Some((r.vars[Param], r.pos)) else None
  }

  // Whenever the generator accepts a struct, its unmarshal gives back every
  // value its marshal was given, from all of the bytes and no others.
  lemma {:induction false} CodecRoundTrip(
    m: Module, rank: string -> nat, st: Struct, ctr: nat, ctr': nat, v: Val, d0: Val, dflt: TypeSpec -> Val)
    requires Acyclic(m, rank) && WellNamed(m) && Defaults(m, dflt)
    requires InTree(m, st) && Distinct(FieldNames(st.fields))
    requires IsValueOf(m, st, v) && IsValueOf(m, st, d0)
    requires GenEncFields(m, rank, st.fields, Root(Param), {}, ctr).GenOk?
    ensures var bytes := Marshal(m, rank, st, ctr, v);
      && bytes == Some(EncFields(m, st.fields, v.fields, HEADER))
      && Unmarshal(Setting(m, rank, bytes.value, dflt), st, ctr', d0) == Some((v, |bytes.value|))
  {
    assert v.fields[0..] == v.fields && v.names[0..] == v.names && d0.fields[0..] == d0.fields;
    MarshalFields(m, rank, st.fields, Root(Param), {}, ctr, v, 0, map[Param := v], HEADER);
    var data := EncFields(m, st.fields, v.fields, HEADER);
    assert HEADER <= data && data[0] == HEADER[0] && data[1] == HEADER[1];
    SameSuccessFields(m, rank, st.fields, Root(Param), Root(Param), {}, ctr, ctr');
    var c := Setting(m, rank, data, dflt);
    UnmarshalFields(c, st.fields, Root(Param), {}, ctr', 0, d0, v, Running(map[Param := d0], map[], 4), HEADER);
  }

  // Different values never share an encoding.
  lemma {:induction false} EncodingIsInjective(
    m: Module, rank: string -> nat, st: Struct, v: Val, w: Val, dflt: TypeSpec -> Val)
    requires Acyclic(m, rank) && WellNamed(m) && Defaults(m, dflt)
    requires InTree(m, st) && Distinct(FieldNames(st.fields)) && IsValueOf(m, st, v) && IsValueOf(m, st, w)
    requires GenEncFields(m, rank, st.fields, Root(Param), {}, 0).GenOk?
    requires EncFields(m, st.fields, v.fields, HEADER) == EncFields(m, st.fields, w.fields, HEADER)
    ensures v == w
  {
    CodecRoundTrip(m, rank, st, 0, 0, v, v, dflt);
    CodecRoundTrip(m, rank, st, 0, 0, w, v, dflt);
  }

  ghost function AnyOf(m: Module, ts: TypeSpec): Val {
    if Inhabited(m, ts) then var v :| HasType(m, ts, v); v else VBool(false)
  }

  // Default objects exist for every module.
  lemma {:induction false} DefaultsExist(m: Module)
    ensures Defaults(m, ts => AnyOf(m, ts))
  {}

  // ---- The generator object ---------------------------------------------

  function Prepended<S>(done: seq<S>, more: Gen<S>): Gen<S> {
    match more case GenErr => GenErr case GenOk(b, c) => GenOk(done + b, c)
  }

  class Generator {
    const m: Module
    var visited: set<string>
    var tmpCounter: nat

    constructor (m: Module)
      ensures this.m == m && visited == {} && tmpCounter == 0
    {
      this.m := m;
      visited, tmpCounter := {}, 0;
    }

    method NextTmp() returns (n: nat)
      modifies this
      ensures n == old(tmpCounter) && tmpCounter == n + 1 && visited == old(visited)
    {
      n := tmpCounter;
      tmpCounter := tmpCounter + 1;
    }

    method AppendEncode(ts: TypeSpec, ref: Ref, ghost rank: string -> nat)
      returns (ok: bool, out: seq<EncStmt>)
      requires Acyclic(m, rank) && Mentions(m, ts)
      modifies this
      ensures var g := GenEnc(m, rank, ts, ref, old(visited), old(tmpCounter));
        && ok == g.GenOk?
        && (ok ==> out == g.stmts && tmpCounter == g.ctr && visited == old(visited))
      decreases Leaves(m) - visited, 0, RankOf(m, rank, ts), Depth(ts), 1
    {
      ok, out := true, [];
      ResolveStaysInTree(m, ts);
      match Resolve(m, ts) {
        case Primitive(p) => out := [Write(p, ref)];
        case Sequence(None) => ok := false;
        case Sequence(Some(e)) =>
          if e == Primitive(POctet) {
            out := [WriteBytes(ref)];
          } else {
            ElementIsSmaller(m, rank, ts, e);
            var n := NextTmp();
            var body: seq<EncStmt>;
            ok, body := AppendEncode(e, Root(Tmp(n)), rank);
            out := [WriteCount(ref), ForEach(n, ref, body)];
          }
        case Array(None, _) => ok := false;
        case Array(Some(e), _) =>
          ElementIsSmaller(m, rank, ts, e);
          var n := NextTmp();
          var body: seq<EncStmt>;
          ok, body := AppendEncode(e, Root(Tmp(n)), rank);
          out := [ForEach(n, ref, body)];
        case Named(name, _) =>
          if IsEnum(m, name) {
            out := [WriteEnum(ref)];
          } else {
            var s := FindStruct(m, name);
            if s.None? || Bare(name) in visited {
              ok := false;
            } else {
              ok, out := AppendEncodeStruct(name, s.value, ref, rank, ts);
            }
          }
      }
    }

    // The fields of a struct, its name marked meanwhile.
    method AppendEncodeStruct(name: string, st: Struct, ref: Ref, ghost rank: string -> nat, ghost ts: TypeSpec)
      returns (ok: bool, out: seq<EncStmt>)
      requires Acyclic(m, rank) && FindStruct(m, name) == Some(st) && Bare(name) in Leaves(m) - visited
      modifies this
      ensures forall f :: f in st.fields ==> Mentions(m, f.typ)
      ensures var g := GenEncFields(m, rank, st.fields, ref, old(visited) + {Bare(name)}, old(tmpCounter));
        && ok == g.GenOk?
        && (ok ==> out == g.stmts && tmpCounter == g.ctr && visited == old(visited))
      decreases Leaves(m) - visited, 0, RankOf(m, rank, ts), Depth(ts), 0
    {
      StructStaysInTree(m, name);
      visited := visited + {Bare(name)};
      ok, out := AppendEncodeFields(st.fields, ref, rank);
      visited := visited - {Bare(name)};
    }

    method AppendEncodeFields(fs: seq<Field>, ref: Ref, ghost rank: string -> nat)
      returns (ok: bool, out: seq<EncStmt>)
      requires Acyclic(m, rank) && forall f :: f in fs ==> Mentions(m, f.typ)
      modifies this
      ensures var g := GenEncFields(m, rank, fs, ref, old(visited), old(tmpCounter));
        && ok == g.GenOk?
        && (ok ==> out == g.stmts && tmpCounter == g.ctr && visited == old(visited))
      decreases Leaves(m) - visited, 1, |fs|, 0
    {
      ok, out := true, [];
      ghost var all := GenEncFields(m, rank, fs, ref, visited, tmpCounter);
      assert fs[0..] == fs;
      PrependedNothing(all);
      var i := 0;
      while i < |fs|
        invariant 0 <= i <= |fs| && visited == old(visited)
        invariant all == Prepended(out, GenEncFields(m, rank, fs[i..], ref, visited, tmpCounter))
      {
        EncodeOneField(m, rank, fs, i, ref, visited, tmpCounter, out);
        var more;
        ok, more := AppendEncode(fs[i].typ, Dot(ref, fs[i].name), rank);
        if !ok { return; }
        out := out + more;
        i := i + 1;
      }
    }

    method AppendPrimitiveDecode(reader: Reader, dest: Ref) returns (out: seq<DecStmt>)
      modifies this
      ensures visited == old(visited) && tmpCounter == old(tmpCounter) + 1
      ensures out == PrimDecode(reader, dest, old(tmpCounter)).stmts
    {
      var n := NextTmp();
      out := [Read(n, reader), CheckRead(n), Assign(dest, n)];
    }

    method AppendDecode(ts: TypeSpec, dest: Ref, ghost rank: string -> nat)
      returns (ok: bool, out: seq<DecStmt>)
      requires Acyclic(m, rank) && Mentions(m, ts)
      modifies this
      ensures var g := GenDec(m, rank, ts, dest, old(visited), old(tmpCounter));
        && ok == g.GenOk?
        && (ok ==> out == g.stmts && tmpCounter == g.ctr && visited == old(visited))
      decreases Leaves(m) - visited, 0, RankOf(m, rank, ts), Depth(ts), 1
    {
      ok, out := true, [];
      ResolveStaysInTree(m, ts);
      match Resolve(m, ts) {
        case Primitive(p) => out := AppendPrimitiveDecode(ReadPrim(p), dest);
        case Sequence(None) => ok := false;
        case Sequence(Some(e)) =>
          if e == Primitive(POctet) {
            out := AppendPrimitiveDecode(ReadBytes, dest);
          } else {
            ElementIsSmaller(m, rank, ts, e);
            var n := NextTmp();
            var n' := NextTmp();
            var body: seq<DecStmt>;
            ok, body := AppendDecode(e, Root(Tmp(n')), rank);
            out := [Read(n, ReadPrim(PULong)), CheckRead(n), Resize(dest, n, e), ForEachMut(n', dest, body)];
          }
        case Array(None, _) => ok := false;
        case Array(Some(e), _) =>
          ElementIsSmaller(m, rank, ts, e);
          var n := NextTmp();
          var body: seq<DecStmt>;
          ok, body := AppendDecode(e, Root(Tmp(n)), rank);
          out := [ForEachMut(n, dest, body)];
        case Named(name, _) =>
          if IsEnum(m, name) {
            out := AppendPrimitiveDecode(ReadPrim(PLong), dest);
          } else {
            var s := FindStruct(m, name);
            if s.None? || Bare(name) in visited {
              ok := false;
            } else {
              ok, out := AppendDecodeStruct(name, s.value, dest, rank, ts);
            }
          }
      }
    }

    // The fields of a struct, its name marked meanwhile.
    method AppendDecodeStruct(name: string, st: Struct, dest: Ref, ghost rank: string -> nat, ghost ts: TypeSpec)
      returns (ok: bool, out: seq<DecStmt>)
      requires Acyclic(m, rank) && FindStruct(m, name) == Some(st) && Bare(name) in Leaves(m) - visited
      modifies this
      ensures forall f :: f in st.fields ==> Mentions(m, f.typ)
      ensures var g := GenDecFields(m, rank, st.fields, dest, old(visited) + {Bare(name)}, old(tmpCounter));
        && ok == g.GenOk?
        && (ok ==> out == g.stmts && tmpCounter == g.ctr && visited == old(visited))
      decreases Leaves(m) - visited, 0, RankOf(m, rank, ts), Depth(ts), 0
    {
      StructStaysInTree(m, name);
      visited := visited + {Bare(name)};
      ok, out := AppendDecodeFields(st.fields, dest, rank);
      visited := visited - {Bare(name)};
    }

    method AppendDecodeFields(fs: seq<Field>, dest: Ref, ghost rank: string -> nat)
      returns (ok: bool, out: seq<DecStmt>)
      requires Acyclic(m, rank) && forall f :: f in fs ==> Mentions(m, f.typ)
      modifies this
      ensures var g := GenDecFields(m, rank, fs, dest, old(visited), old(tmpCounter));
        && ok == g.GenOk?
        && (ok ==> out == g.stmts && tmpCounter == g.ctr && visited == old(visited))
      decreases Leaves(m) - visited, 1, |fs|, 0
    {
      ok, out := true, [];
      ghost var all := GenDecFields(m, rank, fs, dest, visited, tmpCounter);
      assert fs[0..] == fs;
      PrependedNothing(all);
      var i := 0;
      while i < |fs|
        invariant 0 <= i <= |fs| && visited == old(visited)
        invariant all == Prepended(out, GenDecFields(m, rank, fs[i..], dest, visited, tmpCounter))
      {
        DecodeOneField(m, rank, fs, i, dest, visited, tmpCounter, out);
        var more;
        ok, more := AppendDecode(fs[i].typ, Dot(dest, fs[i].name), rank);
        if !ok { return; }
        out := out + more;
        i := i + 1;
      }
    }

    // The statement lists of a struct's marshal and unmarshal.
    method EmitCodec(st: Struct, ghost rank: string -> nat)
      returns (ok: bool, marshal: seq<EncStmt>, unmarshal: seq<DecStmt>)
      requires Acyclic(m, rank) && InTree(m, st) && visited == {}
      modifies this
      ensures ok <==> Generable(m, st)
      ensures var e := GenEncFields(m, rank, st.fields, Root(Param), {}, old(tmpCounter));
        && ok == e.GenOk?
        && (ok ==> marshal == e.stmts && visited == {}
                   && GenDecFields(m, rank, st.fields, Root(Param), {}, e.ctr) == GenOk(unmarshal, tmpCounter))
    {
      unmarshal := [];
      CodecGenerates(m, rank, st, tmpCounter, 0);
      ok, marshal := AppendEncodeFields(st.fields, Root(Param), rank);
      if ok {
        SameSuccessFields(m, rank, st.fields, Root(Param), Root(Param), {}, old(tmpCounter), tmpCounter);
        ok, unmarshal := AppendDecodeFields(st.fields, Root(Param), rank);
      }
    }
  }

  lemma {:induction false} EncodeOneField(
    m: Module, rank: string -> nat, fs: seq<Field>, i: nat, ref: Ref, visited: set<string>, c: nat, done: seq<EncStmt>)
    requires Acyclic(m, rank) && (forall f :: f in fs ==> Mentions(m, f.typ)) && i < |fs|
    ensures var g := GenEnc(m, rank, fs[i].typ, Dot(ref, fs[i].name), visited, c);
      Prepended(done, GenEncFields(m, rank, fs[i..], ref, visited, c)) ==
      if g.GenErr? then GenErr
      else Prepended(done + g.stmts, GenEncFields(m, rank, fs[i + 1..], ref, visited, g.ctr))
  {
    Uncons(fs, i);
    var g := GenEnc(m, rank, fs[i].typ, Dot(ref, fs[i].name), visited, c);
    if g.GenOk? { PrependedTwice(done, g.stmts, GenEncFields(m, rank, fs[i + 1..], ref, visited, g.ctr)); }
  }

  lemma {:induction false} DecodeOneField(
    m: Module, rank: string -> nat, fs: seq<Field>, i: nat, dest: Ref, visited: set<string>, c: nat, done: seq<DecStmt>)
    requires Acyclic(m, rank) && (forall f :: f in fs ==> Mentions(m, f.typ)) && i < |fs|
    ensures var g := GenDec(m, rank, fs[i].typ, Dot(dest, fs[i].name), visited, c);
      Prepended(done, GenDecFields(m, rank, fs[i..], dest, visited, c)) ==
      if g.GenErr? then GenErr
      else Prepended(done + g.stmts, GenDecFields(m, rank, fs[i + 1..], dest, visited, g.ctr))
  {
    Uncons(fs, i);
    var g := GenDec(m, rank, fs[i].typ, Dot(dest, fs[i].name), visited, c);
    if g.GenOk? { PrependedTwice(done, g.stmts, GenDecFields(m, rank, fs[i + 1..], dest, visited, g.ctr)); }
  }

  lemma {:induction false} PrependedNothing<S>(g: Gen<S>)
    ensures Prepended([], g) == g
  {
    if g.GenOk? { assert [] + g.stmts == g.stmts; }
  }

  lemma {:induction false} PrependedTwice<S>(a: seq<S>, b: seq<S>, g: Gen<S>)
    ensures Prepended(a, Prepended(b, g)) == Prepended(a + b, g)
  {
    if g.GenOk? { assert a + (b + g.stmts) == a + b + g.stmts; }
  }
}
