module CppTyping {
  // C++'s typing rules for the statements src/idl/gen.cpp emits, and the codec
  // theorem for well-typed bodies.  The types the statements mention are taken
  // as declared, and the names in them as legal identifiers.

  import opened Octets
  import opened Cdr
  import opened Idl
  import opened Codegen

  // ---- C++ types --------------------------------------------------------

  /** The C++ type of an object: a struct with these members, or what an IDL
      type is mapped to (typedef names are aliases). */
  datatype Type = Members(fs: seq<Field>) | Of(ts: TypeSpec)

  function MembersOf(m: Module, t: Type): Option<seq<Field>> {
    match t
    case Members(fs) => Some(fs)
    case Of(ts) =>
      match Resolve(m, ts)
      case Named(name, _) =>
        if IsEnum(m, name) || FindStruct(m, name).None? then None else Some(FindStruct(m, name).value.fields)
      case _ => None
  }

  function TypeOf(m: Module, types: map<Var, Type>, ref: Ref): Option<Type> {
    match ref
    case Root(x) => if x in types then Some(types[x]) else None
    case Dot(r, f) =>
      match TypeOf(m, types, r)
      case None => None
      case Some(t) =>
        match MembersOf(m, t)
        case None => None
        case Some(fs) =>
          var i := IndexOf(FieldNames(fs), f);
          if i < |fs| then Some(Of(fs[i].typ)) else None
  }

  // The IDL type behind a reference, typedef expanded.
  function Shape(m: Module, types: map<Var, Type>, ref: Ref): Option<TypeSpec> {
    match TypeOf(m, types, ref) case Some(Of(ts)) => Some(Resolve(m, ts)) case _ => None
  }

  function ElementOf(shape: Option<TypeSpec>): Option<TypeSpec> {
    match shape
    case Some(Sequence(e)) => e
    case Some(Array(e, _)) => e
    case _ => None
  }

  // std::vector<bool> hands out proxies instead of references to its elements.
  predicate IsVectorOfBool(m: Module, shape: Option<TypeSpec>) {
    match shape
    case Some(Sequence(Some(e))) => Resolve(m, e) == Primitive(PBool)
    case _ => false
  }

  // ---- Well-typed statements --------------------------------------------

  predicate WellTypedEnc(m: Module, types: map<Var, Type>, stmts: seq<EncStmt>)
    decreases stmts, 0
  {
    |stmts| == 0 || (WellTypedEncOne(m, types, stmts[0]) && WellTypedEnc(m, types, stmts[1..]))
  }

  predicate WellTypedEncOne(m: Module, types: map<Var, Type>, st: EncStmt)
    decreases st, 0
  {
    var shape := Shape(m, types, st.ref);
    match st
    case Write(p, _) => shape == Some(Primitive(p))
    case WriteBytes(_) => shape == Some(Sequence(Some(Primitive(POctet))))
    case WriteCount(_) => shape.Some? && shape.value.Sequence? && shape.value.elem.Some?
    case WriteEnum(_) => shape.Some? && shape.value.Named? && IsEnum(m, shape.value.name)
    case ForEach(n, _, body) =>    // const auto& binds to a proxy's value
      ElementOf(shape).Some? && WellTypedEnc(m, types[Tmp(n) := Of(ElementOf(shape).value)], body)
  }

  predicate Assignable(m: Module, shape: Option<TypeSpec>, reader: Reader) {
    match shape
    case Some(Primitive(p)) => reader == ReadPrim(p)
    case Some(Sequence(Some(e))) => e == Primitive(POctet) && reader == ReadBytes
    case Some(Named(name, _)) => IsEnum(m, name) && reader == ReadPrim(PLong)    // through static_cast
    case _ => false
  }

  // `temps` are the temporaries declared so far and the readers they come from.
  predicate WellTypedDec(m: Module, types: map<Var, Type>, temps: map<nat, Reader>, stmts: seq<DecStmt>)
    decreases stmts, 0
  {
    |stmts| == 0 ||
    (WellTypedDecOne(m, types, temps, stmts[0]) && WellTypedDec(m, types, Declared(temps, stmts[0]), stmts[1..]))
  }

  function Declared(temps: map<nat, Reader>, st: DecStmt): map<nat, Reader> {
    if st.Read? then temps[st.tmp := st.reader] else temps
  }

  predicate WellTypedDecOne(m: Module, types: map<Var, Type>, temps: map<nat, Reader>, st: DecStmt)
    decreases st, 0
  {
    match st
    case Read(_, _) => true
    case CheckRead(t) => t in temps
    case Assign(dest, t) => t in temps && Assignable(m, Shape(m, types, dest), temps[t])
    case Resize(dest, t, e) =>
      t in temps && temps[t] == ReadPrim(PULong) && Shape(m, types, dest) == Some(Sequence(Some(e)))
    case ForEachMut(n, dest, body) =>    // auto& does not bind to a proxy
      var shape := Shape(m, types, dest);
      && ElementOf(shape).Some? && !IsVectorOfBool(m, shape)
      && WellTypedDec(m, types[Tmp(n) := Of(ElementOf(shape).value)], temps, body)
  }

  // ---- Which types that leaves out --------------------------------------

  /** No sequence of booleans anywhere in the type, however it is nested. */
  ghost predicate NoBoolSequence(m: Module, rank: string -> nat, ts: TypeSpec, visited: set<string>)
    requires Acyclic(m, rank) && Mentions(m, ts)
    decreases Leaves(m) - visited, 0, RankOf(m, rank, ts), Depth(ts)
  {
    ResolveStaysInTree(m, ts);
    match Resolve(m, ts)
    case Sequence(Some(e)) =>
      ElementIsSmaller(m, rank, ts, e);
      Resolve(m, e) != Primitive(PBool) && NoBoolSequence(m, rank, e, visited)
    case Array(Some(e), _) =>
      ElementIsSmaller(m, rank, ts, e);
      NoBoolSequence(m, rank, e, visited)
    case Named(name, _) =>
      if IsEnum(m, name) || FindStruct(m, name).None? || Bare(name) in visited then true
      else
        StructStaysInTree(m, name);
        NoBoolSequences(m, rank, FindStruct(m, name).value.fields, visited + {Bare(name)})
    case _ => true
  }

  ghost predicate NoBoolSequences(m: Module, rank: string -> nat, fs: seq<Field>, visited: set<string>)
    requires Acyclic(m, rank) && forall f :: f in fs ==> Mentions(m, f.typ)
    decreases Leaves(m) - visited, 1, |fs|, 0
  {
    |fs| == 0 || (NoBoolSequence(m, rank, fs[0].typ, visited) && NoBoolSequences(m, rank, fs[1..], visited))
  }

  // ---- Encoding is always well typed -------------------------------------

  lemma {:induction false} WellTypedEncConcat(m: Module, types: map<Var, Type>, a: seq<EncStmt>, b: seq<EncStmt>)
    ensures WellTypedEnc(m, types, a + b) <==> WellTypedEnc(m, types, a) && WellTypedEnc(m, types, b)
    decreases |a|
  {
    if |a| == 0 {
      assert a + b == b;
    } else {
      assert (a + b)[0] == a[0] && (a + b)[1..] == a[1..] + b;
      WellTypedEncConcat(m, types, a[1..], b);
    }
  }

  lemma {:induction false} WellTypedEncSingle(m: Module, types: map<Var, Type>, st: EncStmt)
    ensures WellTypedEnc(m, types, [st]) <==> WellTypedEncOne(m, types, st)
  {
    assert |[st][1..]| == 0;
  }

  lemma {:induction false} CountedEncodeWellTyped(
    m: Module, types: map<Var, Type>, ref: Ref, n: nat, e: TypeSpec, body: seq<EncStmt>)
    requires Shape(m, types, ref) == Some(Sequence(Some(e))) && WellTypedEnc(m, types[Tmp(n) := Of(e)], body)
    ensures WellTypedEnc(m, types, [WriteCount(ref), ForEach(n, ref, body)])
  {
    hide WellTypedEnc;
    WellTypedEncSingle(m, types, WriteCount(ref));
    WellTypedEncSingle(m, types, ForEach(n, ref, body));
    WellTypedEncConcat(m, types, [WriteCount(ref)], [ForEach(n, ref, body)]);
    assert [WriteCount(ref), ForEach(n, ref, body)] == [WriteCount(ref)] + [ForEach(n, ref, body)];
  }

  lemma {:induction false} EncodeWellTyped(
    m: Module, rank: string -> nat, ts: TypeSpec, ref: Ref, visited: set<string>, ctr: nat, types: map<Var, Type>)
    requires Acyclic(m, rank) && WellNamed(m) && Mentions(m, ts)
    requires GenEnc(m, rank, ts, ref, visited, ctr).GenOk? && TypeOf(m, types, ref) == Some(Of(ts))
    ensures WellTypedEnc(m, types, GenEnc(m, rank, ts, ref, visited, ctr).stmts)
    decreases Leaves(m) - visited, 0, RankOf(m, rank, ts), Depth(ts)
  {
    hide WellTypedEnc;
    ResolveStaysInTree(m, ts);
    match Resolve(m, ts)
    case Primitive(p) => WellTypedEncSingle(m, types, Write(p, ref));
    case Sequence(Some(e)) =>
      if e == Primitive(POctet) {
        WellTypedEncSingle(m, types, WriteBytes(ref));
      } else {
        ElementIsSmaller(m, rank, ts, e);
        EncodeWellTyped(m, rank, e, Root(Tmp(ctr)), visited, ctr + 1, types[Tmp(ctr) := Of(e)]);
        CountedEncodeWellTyped(m, types, ref, ctr, e, GenEnc(m, rank, e, Root(Tmp(ctr)), visited, ctr + 1).stmts);
      }
    case Array(Some(e), _) =>
      ElementIsSmaller(m, rank, ts, e);
      EncodeWellTyped(m, rank, e, Root(Tmp(ctr)), visited, ctr + 1, types[Tmp(ctr) := Of(e)]);
      WellTypedEncSingle(m, types, ForEach(ctr, ref, GenEnc(m, rank, e, Root(Tmp(ctr)), visited, ctr + 1).stmts));
    case Named(name, _) =>
      if IsEnum(m, name) {
        WellTypedEncSingle(m, types, WriteEnum(ref));
      } else {
        StructStaysInTree(m, name);
        EncodeFieldsWellTyped(m, rank, FindStruct(m, name).value.fields, 0, ref, visited + {Bare(name)}, ctr, types);
      }
  }

  // Fields from the k-th on.
  lemma {:induction false} EncodeFieldsWellTyped(
    m: Module, rank: string -> nat, all: seq<Field>, k: nat, ref: Ref, visited: set<string>, ctr: nat,
    types: map<Var, Type>)
    requires Acyclic(m, rank) && WellNamed(m) && (forall f :: f in all ==> Mentions(m, f.typ))
    requires k <= |all| && Distinct(FieldNames(all)) && HasMembers(m, types, ref, all)
    requires GenEncFields(m, rank, all[k..], ref, visited, ctr).GenOk?
    ensures WellTypedEnc(m, types, GenEncFields(m, rank, all[k..], ref, visited, ctr).stmts)
    decreases Leaves(m) - visited, 1, |all| - k, 0
  {
    hide WellTypedEnc, GenEnc;
    if k == |all| {
      NothingWellTyped(m, types, map[]);
    } else {
      FieldHasType(m, types, ref, all, k);
      assert all[k..][1..] == all[k + 1..];
      var first := GenEnc(m, rank, all[k].typ, Dot(ref, all[k].name), visited, ctr);
      EncodeWellTyped(m, rank, all[k].typ, Dot(ref, all[k].name), visited, ctr, types);
      EncodeFieldsWellTyped(m, rank, all, k + 1, ref, visited, first.ctr, types);
      WellTypedEncConcat(m, types, first.stmts, GenEncFields(m, rank, all[k + 1..], ref, visited, first.ctr).stmts);
    }
  }

  lemma NothingWellTyped(m: Module, types: map<Var, Type>, temps: map<nat, Reader>)
    ensures WellTypedEnc(m, types, []) && WellTypedDec(m, types, temps, [])
  {}

  ghost predicate HasMembers(m: Module, types: map<Var, Type>, ref: Ref, fs: seq<Field>) {
    TypeOf(m, types, ref).Some? && MembersOf(m, TypeOf(m, types, ref).value) == Some(fs)
  }

  lemma {:induction false} FieldHasType(m: Module, types: map<Var, Type>, ref: Ref, all: seq<Field>, k: nat)
    requires HasMembers(m, types, ref, all) && Distinct(FieldNames(all)) && k < |all|
    ensures TypeOf(m, types, Dot(ref, all[k].name)) == Some(Of(all[k].typ))
  {
    IndexOfDistinct(FieldNames(all), k);
  }

  // ---- Decoding is, without sequences of booleans and only then ----------

  function AllDeclared(temps: map<nat, Reader>, stmts: seq<DecStmt>): map<nat, Reader>
    decreases |stmts|
  {
    if |stmts| == 0 then temps else AllDeclared(Declared(temps, stmts[0]), stmts[1..])
  }

  lemma {:induction false} WellTypedDecConcat(
    m: Module, types: map<Var, Type>, temps: map<nat, Reader>, a: seq<DecStmt>, b: seq<DecStmt>)
    ensures WellTypedDec(m, types, temps, a + b) <==>
            WellTypedDec(m, types, temps, a) && WellTypedDec(m, types, AllDeclared(temps, a), b)
    decreases |a|
  {
    if |a| == 0 {
      assert a + b == b;
    } else {
      assert (a + b)[0] == a[0] && (a + b)[1..] == a[1..] + b;
      WellTypedDecConcat(m, types, Declared(temps, a[0]), a[1..], b);
    }
  }

  lemma {:induction false} WellTypedDecCons(
    m: Module, types: map<Var, Type>, temps: map<nat, Reader>, st: DecStmt, more: seq<DecStmt>)
    ensures WellTypedDec(m, types, temps, [st] + more) <==>
            WellTypedDecOne(m, types, temps, st) && WellTypedDec(m, types, Declared(temps, st), more)
  {
    assert ([st] + more)[1..] == more;
  }

  lemma {:induction false} WellTypedDecSingle(m: Module, types: map<Var, Type>, temps: map<nat, Reader>, st: DecStmt)
    ensures WellTypedDec(m, types, temps, [st]) <==> WellTypedDecOne(m, types, temps, st)
  {
    assert |[st][1..]| == 0;
  }

  // Read, check and assign.
  lemma {:induction false} PrimDecodeWellTyped(
    m: Module, types: map<Var, Type>, temps: map<nat, Reader>, reader: Reader, dest: Ref, ctr: nat)
    requires Assignable(m, Shape(m, types, dest), reader)
    ensures WellTypedDec(m, types, temps, PrimDecode(reader, dest, ctr).stmts)
  {
    hide WellTypedDec;
    var more := [CheckRead(ctr)] + [Assign(dest, ctr)];
    assert PrimDecode(reader, dest, ctr).stmts == [Read(ctr, reader)] + more;
    WellTypedDecCons(m, types, temps, Read(ctr, reader), more);
    WellTypedDecCons(m, types, temps[ctr := reader], CheckRead(ctr), [Assign(dest, ctr)]);
    WellTypedDecSingle(m, types, temps[ctr := reader], Assign(dest, ctr));
  }

  // A count, a resize, and the loop.
  lemma {:induction false} CountedDecodeWellTyped(
    m: Module, types: map<Var, Type>, temps: map<nat, Reader>, dest: Ref, ctr: nat, e: TypeSpec, body: seq<DecStmt>)
    requires Shape(m, types, dest) == Some(Sequence(Some(e)))
    ensures WellTypedDec(m, types, temps, CountedDecode(dest, ctr, e, body)) <==>
            && Resolve(m, e) != Primitive(PBool)
            && WellTypedDec(m, types[Tmp(ctr + 1) := Of(e)], temps[ctr := ReadPrim(PULong)], body)
  {
    hide WellTypedDec;
    var r, loop := temps[ctr := ReadPrim(PULong)], ForEachMut(ctr + 1, dest, body);
    var resize := [Resize(dest, ctr, e)] + [loop];
    assert CountedDecode(dest, ctr, e, body) == [Read(ctr, ReadPrim(PULong))] + ([CheckRead(ctr)] + resize);
    WellTypedDecCons(m, types, temps, Read(ctr, ReadPrim(PULong)), [CheckRead(ctr)] + resize);
    WellTypedDecCons(m, types, r, CheckRead(ctr), resize);
    WellTypedDecCons(m, types, r, Resize(dest, ctr, e), [loop]);
    WellTypedDecSingle(m, types, r, loop);
  }

  lemma {:induction false} LoopWellTyped(
    m: Module, types: map<Var, Type>, temps: map<nat, Reader>, dest: Ref, n: nat, e: TypeSpec, body: seq<DecStmt>)
    requires exists size: nat :: Shape(m, types, dest) == Some(Array(Some(e), size))
    ensures WellTypedDec(m, types, temps, [ForEachMut(n, dest, body)]) <==>
            WellTypedDec(m, types[Tmp(n) := Of(e)], temps, body)
  {
    hide WellTypedDec;
    WellTypedDecSingle(m, types, temps, ForEachMut(n, dest, body));
  }

  lemma {:induction false} DecodeWellTyped(
    m: Module, rank: string -> nat, ts: TypeSpec, dest: Ref, visited: set<string>, ctr: nat,
    types: map<Var, Type>, temps: map<nat, Reader>)
    requires Acyclic(m, rank) && WellNamed(m) && Mentions(m, ts)
    requires GenDec(m, rank, ts, dest, visited, ctr).GenOk? && TypeOf(m, types, dest) == Some(Of(ts))
    ensures WellTypedDec(m, types, temps, GenDec(m, rank, ts, dest, visited, ctr).stmts)
            <==> NoBoolSequence(m, rank, ts, visited)
    decreases Leaves(m) - visited, 0, RankOf(m, rank, ts), Depth(ts)
  {
    hide WellTypedDec, WellTypedDecOne, PrimDecode;
    ResolveStaysInTree(m, ts);
    match Resolve(m, ts)
    case Primitive(p) => PrimDecodeWellTyped(m, types, temps, ReadPrim(p), dest, ctr);
    case Sequence(Some(e)) =>
      ElementIsSmaller(m, rank, ts, e);
      if e == Primitive(POctet) {
        PrimDecodeWellTyped(m, types, temps, ReadBytes, dest, ctr);
      } else {
        var body := GenDec(m, rank, e, Root(Tmp(ctr + 1)), visited, ctr + 2).stmts;
        DecodeWellTyped(m, rank, e, Root(Tmp(ctr + 1)), visited, ctr + 2, types[Tmp(ctr + 1) := Of(e)],
                       temps[ctr := ReadPrim(PULong)]);
        CountedDecodeWellTyped(m, types, temps, dest, ctr, e, body);
      }
    case Array(Some(e), _) =>
      ElementIsSmaller(m, rank, ts, e);
      DecodeWellTyped(m, rank, e, Root(Tmp(ctr)), visited, ctr + 1, types[Tmp(ctr) := Of(e)], temps);
      LoopWellTyped(m, types, temps, dest, ctr, e, GenDec(m, rank, e, Root(Tmp(ctr)), visited, ctr + 1).stmts);
    case Named(name, _) =>
      if IsEnum(m, name) {
        PrimDecodeWellTyped(m, types, temps, ReadPrim(PLong), dest, ctr);
      } else {
        StructStaysInTree(m, name);
        var fs := FindStruct(m, name).value.fields;
        DecodeFieldsWellTyped(m, rank, fs, 0, dest, visited + {Bare(name)}, ctr, types, temps);
      }
  }

  lemma {:induction false} DecodeFieldsWellTyped(
    m: Module, rank: string -> nat, all: seq<Field>, k: nat, dest: Ref, visited: set<string>, ctr: nat,
    types: map<Var, Type>, temps: map<nat, Reader>)
    requires Acyclic(m, rank) && WellNamed(m) && (forall f :: f in all ==> Mentions(m, f.typ))
    requires k <= |all| && Distinct(FieldNames(all)) && HasMembers(m, types, dest, all)
    requires GenDecFields(m, rank, all[k..], dest, visited, ctr).GenOk?
    ensures WellTypedDec(m, types, temps, GenDecFields(m, rank, all[k..], dest, visited, ctr).stmts)
            <==> NoBoolSequences(m, rank, all[k..], visited)
    decreases Leaves(m) - visited, 1, |all| - k, 0
  {
    hide WellTypedDec, GenDec, NoBoolSequence;
    if k == |all| {
      NothingWellTyped(m, types, temps);
    } else {
      FieldHasType(m, types, dest, all, k);
      assert all[k..][1..] == all[k + 1..];
      var first := GenDec(m, rank, all[k].typ, Dot(dest, all[k].name), visited, ctr);
      DecodeWellTyped(m, rank, all[k].typ, Dot(dest, all[k].name), visited, ctr, types, temps);
      DecodeFieldsWellTyped(m, rank, all, k + 1, dest, visited, first.ctr, types, AllDeclared(temps, first.stmts));
      var more := GenDecFields(m, rank, all[k + 1..], dest, visited, first.ctr);
      WellTypedDecConcat(m, types, temps, first.stmts, more.stmts);
    }
  }

  // ---- A struct's codec -------------------------------------------------

  /** The statements of both functions generated for the struct are well typed. */
  ghost predicate BodiesWellTyped(m: Module, rank: string -> nat, st: Struct, ctr: nat, ctr': nat)
    requires Acyclic(m, rank) && InTree(m, st)
  {
    var enc := GenEncFields(m, rank, st.fields, Root(Param), {}, ctr);
    var dec := GenDecFields(m, rank, st.fields, Root(Param), {}, ctr');
    var types := map[Param := Members(st.fields)];
    enc.GenOk? && dec.GenOk? && WellTypedEnc(m, types, enc.stmts) && WellTypedDec(m, types, map[], dec.stmts)
  }

  /** Whenever the generator accepts a struct, the statements of both bodies are
      well typed, given declared types and legal identifiers, exactly when the
      struct holds no sequence of booleans; and then unmarshal gives back every
      value, from all of its bytes and no others. */
  lemma {:induction false} GeneratedCodecWorks(
    m: Module, rank: string -> nat, st: Struct, ctr: nat, ctr': nat, v: Val, d0: Val, dflt: TypeSpec -> Val)
    requires Acyclic(m, rank) && WellNamed(m) && Defaults(m, dflt)
    requires InTree(m, st) && Distinct(FieldNames(st.fields))
    requires GenEncFields(m, rank, st.fields, Root(Param), {}, ctr).GenOk?
    ensures BodiesWellTyped(m, rank, st, ctr, ctr') <==> NoBoolSequences(m, rank, st.fields, {})
    ensures BodiesWellTyped(m, rank, st, ctr, ctr') && IsValueOf(m, st, v) && IsValueOf(m, st, d0) ==>
              var bytes := Marshal(m, rank, st, ctr, v);
              && bytes == Some(EncFields(m, st.fields, v.fields, HEADER))
              && Unmarshal(Setting(m, rank, bytes.value, dflt), st, ctr', d0) == Some((v, |bytes.value|))
  {
    var types := map[Param := Members(st.fields)];
    assert st.fields[0..] == st.fields;
    SameSuccessFields(m, rank, st.fields, Root(Param), Root(Param), {}, ctr, ctr');
    EncodeFieldsWellTyped(m, rank, st.fields, 0, Root(Param), {}, ctr, types);
    DecodeFieldsWellTyped(m, rank, st.fields, 0, Root(Param), {}, ctr', types, map[]);
    if IsValueOf(m, st, v) && IsValueOf(m, st, d0) {
      CodecRoundTrip(m, rank, st, ctr, ctr', v, d0, dflt);
    }
  }
}
