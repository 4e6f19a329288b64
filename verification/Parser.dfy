/// The IDL recursive-descent parser (src/idl/parser.cpp).

module Parsing {
  import opened Octets
  import opened Cdr
  import opened Idl
  import opened Lexing
  import T = Texts

  datatype ParseError = ParseError(line: nat, message: string)

  datatype Parsed<+V> = Ok(value: V, rest: Toks) | Err(error: ParseError)

  // ---- Tokens in hand ---------------------------------------------------

  function Len(ts: Toks): nat { match ts case End(_) => 0 case Cons(_, rest) => 1 + Len(rest) }

  function Peek(ts: Toks): Token {
    match ts case End(line) => Token(Eof, "", line) case Cons(t, _) => t
  }

  function Drop(ts: Toks): (r: Toks)
    ensures Len(r) <= Len(ts) && (ts.Cons? ==> Len(r) < Len(ts))
  {
    match ts case End(_) => ts case Cons(_, rest) => rest
  }

  predicate Is(ts: Toks, k: TokKind) { Peek(ts).kind == k }

  function Failure(t: Token, before: string): ParseError {
    ParseError(t.line, "idl: line " + T.Decimal(t.line) + ": " + before + " \"" + t.val + "\"")
  }

  // expect_tok
  function Expect(ts: Toks, k: TokKind, desc: string): (r: Parsed<string>)
    ensures r.Ok? ==> Len(r.rest) <= Len(ts) && (k != Eof ==> Len(r.rest) < Len(ts))
  {
    var t := Peek(ts);
    if t.kind != k then Err(Failure(t, "expected " + desc + ", got")) else Ok(t.val, Drop(ts))
  }

  // ---- Types ------------------------------------------------------------

  // "::" and a further segment, as often as they come.
  function ParseQualified(ts: Toks, name: string): (r: Parsed<TypeSpec>)
    ensures r.Ok? ==> Len(r.rest) <= Len(ts)
    decreases Len(ts)
  {
    if !Is(ts, DoubleColon) then Ok(Named(name, false), ts)
    else
      var ts1 := Drop(ts);
      var next := Peek(ts1);
      if next.kind != Ident then Err(Failure(next, "expected name after '::', got"))
      else ParseQualified(Drop(ts1), name + "::" + next.val)
  }

  function Simple(word: string): Option<Prim> {
    if word == "boolean" then Some(PBool)
    else if word == "octet" then Some(POctet)
    else if word == "float" then Some(PFloat)
    else if word == "double" then Some(PDouble)
    else if word == "short" then Some(PShort)
    else None
  }

  function ParseUnsigned(ts: Toks): (r: Parsed<TypeSpec>)
    ensures r.Ok? ==> Len(r.rest) <= Len(ts)
  {
    var next := Peek(ts);
    if next.kind != Ident then Err(Failure(next, "expected type after 'unsigned', got"))
    else if next.val == "short" then Ok(Primitive(PUShort), Drop(ts))
    else if next.val == "long" then
      if Peek(Drop(ts)).val == "long" then Ok(Primitive(PULongLong), Drop(Drop(ts)))
      else Ok(Primitive(PULong), Drop(ts))
    else Err(Failure(next, "unknown unsigned type"))
  }

  // string, with its bound passed over.
  function ParseStringType(ts: Toks): (r: Parsed<TypeSpec>)
    ensures r.Ok? ==> Len(r.rest) <= Len(ts)
  {
    if !Is(ts, LAngle) then Ok(Primitive(PString), ts)
    else
      match Expect(Drop(Drop(ts)), RAngle, ">")
      case Err(e) => Err(e)
      case Ok(_, ts1) => Ok(Primitive(PString), ts1)
  }

  function ParseType(ts: Toks): (r: Parsed<TypeSpec>)
    ensures r.Ok? ==> Len(r.rest) < Len(ts)
    decreases Len(ts)
  {
    var t, ts1 := Peek(ts), Drop(ts);
    if t.kind != Ident then Err(Failure(t, "expected type name, got"))
    else if Simple(t.val).Some? then Ok(Primitive(Simple(t.val).value), ts1)
    else if t.val == "string" then ParseStringType(ts1)
    else if t.val == "long" then
      if Peek(ts1).val == "long" then Ok(Primitive(PLongLong), Drop(ts1)) else Ok(Primitive(PLong), ts1)
    else if t.val == "unsigned" then ParseUnsigned(ts1)
    else if t.val == "sequence" then ParseSequence(ts1)
    else ParseQualified(ts1, t.val)
  }

  // A sequence's element, with its bound passed over.
  function ParseSequence(ts: Toks): (r: Parsed<TypeSpec>)
    ensures r.Ok? ==> Len(r.rest) < Len(ts)
    decreases Len(ts), 0
  {
    match Expect(ts, LAngle, "<")
    case Err(e) => Err(e)
    case Ok(_, ts2) =>
      match ParseType(ts2)
      case Err(e) => Err(e)
      case Ok(elem, ts3) =>
        var ts4 := if Is(ts3, Comma) then Drop(Drop(ts3)) else ts3;
        match Expect(ts4, RAngle, ">")
        case Err(e) => Err(e)
        case Ok(_, ts5) => Ok(Sequence(Some(elem)), ts5)
  }

  // ---- Structs ----------------------------------------------------------

  // What a `{` after an annotation name skips.
  function SkipBraces(ts: Toks): (r: Toks)
    ensures Len(r) <= Len(ts)
    decreases Len(ts)
  {
    if Is(ts, RBrace) then Drop(ts)
    else if Is(ts, Eof) then ts
    else SkipBraces(Drop(ts))
  }

  function ParseAnnotations(ts: Toks, isKey: bool): (r: (bool, Toks))
    ensures Len(r.1) <= Len(ts)
    decreases Len(ts)
  {
    if !Is(ts, At) then (isKey, ts)
    else
      var annot, ts1 := Peek(Drop(ts)), Drop(Drop(ts));
      ParseAnnotations(if Is(ts1, LBrace) then SkipBraces(ts1) else ts1, isKey || annot.val == "key")
  }

  const MAX_INT: nat := 0x7FFF_FFFF

  // "[N]" after a field name makes the field an array.
  function ParseBound(ts: Toks, t: TypeSpec): (r: Parsed<TypeSpec>)
    ensures r.Ok? ==> Len(r.rest) <= Len(ts)
  {
    if !Is(ts, LBracket) then Ok(t, ts)
    else
      var size := Peek(Drop(ts));
      if size.kind != Number then Err(Failure(size, "expected array size, got"))
      else
        match Expect(Drop(Drop(ts)), RBracket, "]")
        case Err(e) => Err(e)
        case Ok(_, ts1) =>
          var n := T.NumberOf(size.val);
          if 0 <= n <= MAX_INT then Ok(Array(Some(t), n), ts1) else Err(Failure(size, "invalid array size"))
  }

  function ParseField(ts: Toks): (r: Parsed<Field>)
    ensures r.Ok? ==> Len(r.rest) < Len(ts)
  {
    var (isKey, ts1) := ParseAnnotations(ts, false);
    match ParseType(ts1)
    case Err(e) => Err(e)
    case Ok(t, ts2) =>
      match Expect(ts2, Ident, "field name")
      case Err(e) => Err(e)
      case Ok(name, ts3) =>
        match ParseBound(ts3, t)
        case Err(e) => Err(e)
        case Ok(typ, ts4) =>
          match Expect(ts4, Semi, ";")
          case Err(e) => Err(e)
          case Ok(_, ts5) => Ok(Field(name, typ, isKey), ts5)
  }

  function ParseFields(ts: Toks, fields: seq<Field>): (r: Parsed<seq<Field>>)
    ensures r.Ok? ==> Len(r.rest) <= Len(ts)
    decreases Len(ts)
  {
    if Is(ts, RBrace) || Is(ts, Eof) then Ok(fields, ts)
    else
      match ParseField(ts)
      case Err(e) => Err(e)
      case Ok(f, ts1) => ParseFields(ts1, fields + [f])
  }

  // After "}": ";".
  function ParseEnd<V>(ts: Toks, value: V): (r: Parsed<V>)
    ensures r.Ok? ==> Len(r.rest) < Len(ts)
  {
    match Expect(ts, RBrace, "}")
    case Err(e) => Err(e)
    case Ok(_, ts1) => match Expect(ts1, Semi, ";") case Err(e) => Err(e) case Ok(_, ts2) => Ok(value, ts2)
  }

  function ParseStruct(ts: Toks): (r: Parsed<Struct>)
    ensures r.Ok? ==> Len(r.rest) < Len(ts)
  {
    match Expect(ts, Ident, "struct name")
    case Err(e) => Err(e)
    case Ok(name, ts1) =>
      match Expect(ts1, LBrace, "{")
      case Err(e) => Err(e)
      case Ok(_, ts2) =>
        match ParseFields(ts2, [])
        case Err(e) => Err(e)
        case Ok(fields, ts3) => ParseEnd(ts3, Struct(name, fields))
  }

  // ---- Enums and typedefs -----------------------------------------------

  // Every token advances; only identifiers become values.
  function ParseValues(ts: Toks, values: seq<string>): (r: (seq<string>, Toks))
    ensures Len(r.1) <= Len(ts)
    decreases Len(ts)
  {
    if Is(ts, RBrace) || Is(ts, Eof) then (values, ts)
    else
      var cur, ts1 := Peek(ts), Drop(ts);
      ParseValues(if Is(ts1, Comma) then Drop(ts1) else ts1, if cur.kind == Ident then values + [cur.val] else values)
  }

  function ParseEnum(ts: Toks): (r: Parsed<Enum>)
    ensures r.Ok? ==> Len(r.rest) < Len(ts)
  {
    match Expect(ts, Ident, "enum name")
    case Err(e) => Err(e)
    case Ok(name, ts1) =>
      match Expect(ts1, LBrace, "{")
      case Err(e) => Err(e)
      case Ok(_, ts2) =>
        var (values, ts3) := ParseValues(ts2, []);
        ParseEnd(ts3, Enum(name, values))
  }

  function ParseTypedef(ts: Toks): (r: Parsed<Typedef>)
    ensures r.Ok? ==> Len(r.rest) < Len(ts)
  {
    match ParseType(ts)
    case Err(e) => Err(e)
    case Ok(t, ts1) =>
      match Expect(ts1, Ident, "typedef alias name")
      case Err(e) => Err(e)
      case Ok(name, ts2) =>
        match Expect(ts2, Semi, ";")
        case Err(e) => Err(e)
        case Ok(_, ts3) => Ok(Typedef(name, t), ts3)
  }

  // ---- Modules ----------------------------------------------------------

  // An unknown declaration is passed over up to its ";" or the closing brace.
  function SkipUnknown(ts: Toks): (r: Toks)
    ensures Len(r) <= Len(ts)
    decreases Len(ts)
  {
    if Is(ts, Eof) || Is(ts, RBrace) then ts
    else if Is(ts, Semi) then Drop(ts)
    else SkipUnknown(Drop(ts))
  }

  function ParseModule(ts: Toks, m: Module): (r: Parsed<Module>)
    ensures r.Ok? ==> Len(r.rest) <= Len(ts)
    decreases Len(ts), 1
  {
    var t, ts1 := Peek(ts), Drop(ts);
    if t.kind == Eof || t.kind == RBrace then Ok(m, ts)
    else if t.kind != Ident then ParseModule(ts1, m)
    else if t.val == "module" then
      match ParseNamedModule(ts1)
      case Err(e) => Err(e)
      case Ok(sub, ts2) => ParseModule(ts2, m.(modules := m.modules + [sub]))
    else if t.val == "struct" then
      match ParseStruct(ts1)
      case Err(e) => Err(e)
      case Ok(s, ts2) => ParseModule(ts2, m.(structs := m.structs + [s]))
    else if t.val == "enum" then
      match ParseEnum(ts1)
      case Err(e) => Err(e)
      case Ok(x, ts2) => ParseModule(ts2, m.(enums := m.enums + [x]))
    else if t.val == "typedef" then
      match ParseTypedef(ts1)
      case Err(e) => Err(e)
      case Ok(td, ts2) => ParseModule(ts2, m.(typedefs := m.typedefs + [td]))
    else ParseModule(SkipUnknown(ts1), m)
  }

  const EMPTY := Module("", [], [], [], [])

  function ParseNamedModule(ts: Toks): (r: Parsed<Module>)
    ensures r.Ok? ==> Len(r.rest) < Len(ts)
    decreases Len(ts), 0
  {
    match Expect(ts, Ident, "module name")
    case Err(e) => Err(e)
    case Ok(name, ts1) =>
      match Expect(ts1, LBrace, "{")
      case Err(e) => Err(e)
      case Ok(_, ts2) =>
        match ParseModule(ts2, EMPTY)
        case Err(e) => Err(e)
        case Ok(m, ts3) =>
          match Expect(ts3, RBrace, "}")
          case Err(e) => Err(e)
          case Ok(_, ts4) => Ok(m.(name := name), if Is(ts4, Semi) then Drop(ts4) else ts4)
  }

  /** parse_string: a module, or the first error. */
  datatype ParseResult = Success(m: Module) | Failed(error: ParseError)

  function ParseText(src: string): ParseResult {
    match ParseModule(LexAll(src, 1), EMPTY)
    case Err(e) => Failed(e)
    case Ok(m, _) => Success(m)
  }

  // ---- Writing a module as tokens ---------------------------------------

  predicate IsIdent(s: string) { |s| > 0 && IsIdentStart(s[0]) && IdentRun(s) == |s| }

  // Words that mean something where a type is expected.
  predicate IsTypeWord(s: string) {
    Simple(s).Some? || s == "string" || s == "long" || s == "unsigned" || s == "sequence"
  }

  predicate IsName(s: string) { IsIdent(s) && !IsTypeWord(s) }

  // The segments of Module::Name.
  function Segments(name: string): (segs: seq<string>)
    ensures |segs| > 0
    decreases |name|
  {
    match FindSep(name) case None => [name] case Some(i) => [name[..i]] + Segments(name[i + 2..])
  }

  /** Types the parser can produce and the grammar can express inside a
      declaration; an array only as a whole field. */
  predicate Writable(t: TypeSpec) {
    match t
    case Primitive(_) => true
    case Sequence(e) => e.Some? && Writable(e.value)
    case Array(_, _) => false
    case Named(name, isEnum) =>
      !isEnum && IsName(Segments(name)[0]) && forall i :: 0 <= i < |Segments(name)| ==> IsIdent(Segments(name)[i])
  }

  predicate FieldWritable(f: Field) {
    IsName(f.name) &&
    if f.typ.Array? then f.typ.elem.Some? && Writable(f.typ.elem.value) && f.typ.size <= MAX_INT else Writable(f.typ)
  }

  predicate StructWritable(s: Struct) {
    IsIdent(s.name) && forall i :: 0 <= i < |s.fields| ==> FieldWritable(s.fields[i])
  }

  predicate EnumWritable(e: Enum) { IsIdent(e.name) && forall i :: 0 <= i < |e.values| ==> IsIdent(e.values[i]) }

  predicate TypedefWritable(t: Typedef) { IsName(t.name) && Writable(t.typ) }

  predicate ModuleWritable(m: Module) {
    && (forall i :: 0 <= i < |m.typedefs| ==> TypedefWritable(m.typedefs[i]))
    && (forall i :: 0 <= i < |m.enums| ==> EnumWritable(m.enums[i]))
    && (forall i :: 0 <= i < |m.structs| ==> StructWritable(m.structs[i]))
    && (forall i :: 0 <= i < |m.modules| ==> IsIdent(m.modules[i].name) && ModuleWritable(m.modules[i]))
  }

  // A word, or a mark, in front of what follows.
  function Word(w: string, k: Toks): Toks { Cons(Token(Ident, w, 1), k) }

  function Mark(kind: TokKind, s: string, k: Toks): Toks { Cons(Token(kind, s, 1), k) }

  function WriteSegments(segs: seq<string>, k: Toks): Toks {
    if |segs| == 0 then k else Mark(DoubleColon, "::", Word(segs[0], WriteSegments(segs[1..], k)))
  }

  function WritePrim(p: Prim, k: Toks): Toks {
    match p
    case PBool => Word("boolean", k)
    case POctet => Word("octet", k)
    case PShort => Word("short", k)
    case PUShort => Word("unsigned", Word("short", k))
    case PLong => Word("long", k)
    case PULong => Word("unsigned", Word("long", k))
    case PLongLong => Word("long", Word("long", k))
    case PULongLong => Word("unsigned", Word("long", Word("long", k)))
    case PFloat => Word("float", k)
    case PDouble => Word("double", k)
    case PString => Word("string", k)
  }

  function WriteType(t: TypeSpec, k: Toks): Toks
    requires Writable(t)
    decreases t
  {
    match t
    case Primitive(p) => WritePrim(p, k)
    case Sequence(e) => Word("sequence", Mark(LAngle, "<", WriteType(e.value, Mark(RAngle, ">", k))))
    case Named(name, _) => Word(Segments(name)[0], WriteSegments(Segments(name)[1..], k))
  }

  // The bound of an array, and what follows it.
  function WriteBound(f: Field, end: Toks): Toks {
    if f.typ.Array? then Mark(LBracket, "[", Mark(Number, T.Decimal(f.typ.size), Mark(RBracket, "]", end))) else end
  }

  function WriteField(f: Field, k: Toks): Toks
    requires FieldWritable(f)
  {
    var typ := if f.typ.Array? then f.typ.elem.value else f.typ;
    var plain := WriteType(typ, Word(f.name, WriteBound(f, Mark(Semi, ";", k))));
    if f.key then Mark(At, "@", Word("key", plain)) else plain
  }

  function WriteFields(fs: seq<Field>, k: Toks): Toks
    requires forall i :: 0 <= i < |fs| ==> FieldWritable(fs[i])
  {
    if |fs| == 0 then k else WriteField(fs[0], WriteFields(fs[1..], k))
  }

  function WriteEnd(k: Toks): Toks { Mark(RBrace, "}", Mark(Semi, ";", k)) }

  function WriteStruct(s: Struct, k: Toks): Toks
    requires StructWritable(s)
  {
    Word("struct", Word(s.name, Mark(LBrace, "{", WriteFields(s.fields, WriteEnd(k)))))
  }

  function WriteValues(vs: seq<string>, k: Toks): Toks {
    if |vs| == 0 then k else Word(vs[0], Mark(Comma, ",", WriteValues(vs[1..], k)))
  }

  function WriteEnum(e: Enum, k: Toks): Toks {
    Word("enum", Word(e.name, Mark(LBrace, "{", WriteValues(e.values, WriteEnd(k)))))
  }

  function WriteTypedef(t: Typedef, k: Toks): Toks
    requires TypedefWritable(t)
  {
    Word("typedef", WriteType(t.typ, Word(t.name, Mark(Semi, ";", k))))
  }

  function WriteTypedefs(ts: seq<Typedef>, k: Toks): Toks
    requires forall i :: 0 <= i < |ts| ==> TypedefWritable(ts[i])
  {
    if |ts| == 0 then k else WriteTypedef(ts[0], WriteTypedefs(ts[1..], k))
  }

  function WriteEnums(es: seq<Enum>, k: Toks): Toks {
    if |es| == 0 then k else WriteEnum(es[0], WriteEnums(es[1..], k))
  }

  function WriteStructs(ss: seq<Struct>, k: Toks): Toks
    requires forall i :: 0 <= i < |ss| ==> StructWritable(ss[i])
  {
    if |ss| == 0 then k else WriteStruct(ss[0], WriteStructs(ss[1..], k))
  }

  // Typedefs, enums, structs and then modules, each in order.
  function WriteModule(m: Module, k: Toks): Toks
    requires ModuleWritable(m)
    decreases m, 1
  {
    WriteTypedefs(m.typedefs, WriteEnums(m.enums, WriteStructs(m.structs, WriteModules(m.modules, k))))
  }

  function WriteModules(ms: seq<Module>, k: Toks): Toks
    requires forall i :: 0 <= i < |ms| ==> IsIdent(ms[i].name) && ModuleWritable(ms[i])
    decreases ms, 0
  {
    if |ms| == 0 then k
    else Word("module", Word(ms[0].name, Mark(LBrace, "{", WriteModule(ms[0], WriteEnd(WriteModules(ms[1..], k))))))
  }

  // The canonical text of a module at file scope.
  function Render(m: Module): string
    requires ModuleWritable(m)
  {
    Text(WriteModule(m, End(1)))
  }

  // ---- Reading it back --------------------------------------------------

  lemma {:induction false} FindSepIs(s: string)
    ensures match FindSep(s)
      case None => true
      case Some(i) => s == s[..i] + "::" + s[i + 2..]
  {
    if |s| >= 2 && !(s[0] == ':' && s[1] == ':') { FindSepIs(s[1..]); }
  }

  function Join(name: string, segs: seq<string>): string
    decreases |segs|
  {
    if |segs| == 0 then name else Join(name + "::" + segs[0], segs[1..])
  }

  lemma {:induction false} SegmentsJoin(before: string, name: string)
    ensures Join(before + Segments(name)[0], Segments(name)[1..]) == before + name
    decreases |name|
  {
    match FindSep(name)
    case None =>
    case Some(i) =>
      var head, tail := name[..i], name[i + 2..];
      FindSepIs(name);
      SegmentsJoin(before + head + "::", tail);
      assert Segments(name)[1..] == Segments(tail);
      assert before + head + "::" + tail == before + name;
  }

  // What may follow a type without being taken for a part of it.
  predicate MayFollow(k: Toks) { Peek(k).val != "long" && !Is(k, LAngle) && !Is(k, DoubleColon) }

  lemma {:induction false} SegmentsRead(segs: seq<string>, k: Toks, name: string)
    requires !Is(k, DoubleColon)
    ensures ParseQualified(WriteSegments(segs, k), name) == Ok(Named(Join(name, segs), false), k)
    decreases |segs|
  {
    if |segs| > 0 { SegmentsRead(segs[1..], k, name + "::" + segs[0]); }
  }

  lemma {:induction false} PrimReads(p: Prim, k: Toks)
    requires MayFollow(k)
    ensures ParseType(WritePrim(p, k)) == Ok(Primitive(p), k)
  {}

  /** A written type is read back as itself, up to where it ends. */
  lemma {:induction false} TypeReads(t: TypeSpec, k: Toks)
    requires Writable(t) && MayFollow(k)
    ensures ParseType(WriteType(t, k)) == Ok(t, k)
    decreases Depth(t)
  {
    match t
    case Primitive(p) => PrimReads(p, k);
    case Sequence(e) => TypeReads(e.value, Mark(RAngle, ">", k));
    case Named(name, isEnum) =>
      var segs := Segments(name);
      SegmentsRead(segs[1..], k, segs[0]);
      SegmentsJoin("", name);
      assert "" + segs[0] == segs[0] && "" + name == name;
  }

  lemma {:induction false} TypeStartsWithWord(t: TypeSpec, k: Toks)
    requires Writable(t)
    ensures Is(WriteType(t, k), Ident)
  {}

  lemma {:induction false} NoAnnotations(ts: Toks, isKey: bool)
    requires !Is(ts, At)
    ensures ParseAnnotations(ts, isKey) == (isKey, ts)
  {}

  lemma {:induction false} BoundReads(f: Field, k: Toks)
    requires FieldWritable(f)
    ensures var end := Mark(Semi, ";", k);
      if f.typ.Array? then
        ParseBound(WriteBound(f, end), f.typ.elem.value) == Ok(f.typ, end)
      else ParseBound(end, f.typ) == Ok(f.typ, end)
  {
    if f.typ.Array? { T.DecimalReads(f.typ.size); }
  }

  lemma {:induction false} FieldReads(f: Field, k: Toks)
    requires FieldWritable(f)
    ensures ParseField(WriteField(f, k)) == Ok(f, k)
  {
    hide ParseType, WriteType, Writable, ParseBound;
    var typ := if f.typ.Array? then f.typ.elem.value else f.typ;
    var end := Mark(Semi, ";", k);
    var bound := WriteBound(f, end);
    var plain := WriteType(typ, Word(f.name, bound));
    TypeStartsWithWord(typ, Word(f.name, bound));
    NoAnnotations(plain, f.key);
    NoAnnotations(plain, false);
    TypeReads(typ, Word(f.name, bound));
    BoundReads(f, k);
  }

  lemma {:induction false} FieldsRead(fs: seq<Field>, k: Toks, before: seq<Field>)
    requires (forall i :: 0 <= i < |fs| ==> FieldWritable(fs[i])) && Is(k, RBrace)
    ensures ParseFields(WriteFields(fs, k), before) == Ok(before + fs, k)
    decreases |fs|
  {
    hide ParseField, WriteField, FieldWritable;
    if |fs| > 0 {
      var rest := WriteFields(fs[1..], k);
      FieldStarts(fs[0], rest);
      FieldReads(fs[0], rest);
      FieldsRead(fs[1..], k, before + [fs[0]]);
      assert before + [fs[0]] + fs[1..] == before + fs;
    } else {
      assert before + fs == before;
    }
  }

  lemma {:induction false} FieldStarts(f: Field, k: Toks)
    requires FieldWritable(f)
    ensures Is(WriteField(f, k), At) || Is(WriteField(f, k), Ident)
  {}

  lemma {:induction false} StructReads(s: Struct, k: Toks)
    requires StructWritable(s)
    ensures ParseStruct(Drop(WriteStruct(s, k))) == Ok(s, k)
  {
    hide ParseFields, WriteFields, FieldWritable;
    FieldsRead(s.fields, WriteEnd(k), []);
    assert [] + s.fields == s.fields;
  }

  lemma {:induction false} ValuesRead(vs: seq<string>, k: Toks, before: seq<string>)
    requires Is(k, RBrace)
    ensures ParseValues(WriteValues(vs, k), before) == (before + vs, k)
    decreases |vs|
  {
    if |vs| > 0 {
      ValuesRead(vs[1..], k, before + [vs[0]]);
      assert before + [vs[0]] + vs[1..] == before + vs;
    } else {
      assert before + vs == before;
    }
  }

  lemma {:induction false} EnumReads(e: Enum, k: Toks)
    ensures ParseEnum(Drop(WriteEnum(e, k))) == Ok(e, k)
  {
    hide ParseValues, WriteValues;
    ValuesRead(e.values, WriteEnd(k), []);
    assert [] + e.values == e.values;
  }

  lemma {:induction false} TypedefReads(t: Typedef, k: Toks)
    requires TypedefWritable(t)
    ensures ParseTypedef(Drop(WriteTypedef(t, k))) == Ok(t, k)
  {
    hide ParseType, WriteType;
    TypeReads(t.typ, Word(t.name, Mark(Semi, ";", k)));
  }

  lemma {:induction false} TypedefsRead(ts: seq<Typedef>, k: Toks, m: Module)
    requires forall i :: 0 <= i < |ts| ==> TypedefWritable(ts[i])
    ensures ParseModule(WriteTypedefs(ts, k), m) == ParseModule(k, m.(typedefs := m.typedefs + ts))
    decreases |ts|
  {
    hide ParseTypedef, TypedefWritable, WriteType;
    if |ts| > 0 {
      TypedefReads(ts[0], WriteTypedefs(ts[1..], k));
      TypedefsRead(ts[1..], k, m.(typedefs := m.typedefs + [ts[0]]));
      assert m.typedefs + [ts[0]] + ts[1..] == m.typedefs + ts;
    } else {
      assert m.typedefs + ts == m.typedefs;
    }
  }

  lemma {:induction false} EnumsRead(es: seq<Enum>, k: Toks, m: Module)
    ensures ParseModule(WriteEnums(es, k), m) == ParseModule(k, m.(enums := m.enums + es))
    decreases |es|
  {
    hide ParseEnum, WriteValues;
    if |es| > 0 {
      EnumReads(es[0], WriteEnums(es[1..], k));
      EnumsRead(es[1..], k, m.(enums := m.enums + [es[0]]));
      assert m.enums + [es[0]] + es[1..] == m.enums + es;
    } else {
      assert m.enums + es == m.enums;
    }
  }

  lemma {:induction false} StructsRead(ss: seq<Struct>, k: Toks, m: Module)
    requires forall i :: 0 <= i < |ss| ==> StructWritable(ss[i])
    ensures ParseModule(WriteStructs(ss, k), m) == ParseModule(k, m.(structs := m.structs + ss))
    decreases |ss|
  {
    hide ParseStruct, StructWritable, WriteFields;
    if |ss| > 0 {
      StructReads(ss[0], WriteStructs(ss[1..], k));
      StructsRead(ss[1..], k, m.(structs := m.structs + [ss[0]]));
      assert m.structs + [ss[0]] + ss[1..] == m.structs + ss;
    } else {
      assert m.structs + ss == m.structs;
    }
  }

  function Extended(m: Module, more: Module): Module {
    m.(typedefs := m.typedefs + more.typedefs, enums := m.enums + more.enums,
       structs := m.structs + more.structs, modules := m.modules + more.modules)
  }

  lemma {:induction false} ModuleReads(m: Module, k: Toks, before: Module)
    requires ModuleWritable(m)
    ensures ParseModule(WriteModule(m, k), before) == ParseModule(k, Extended(before, m))
    decreases m, 1
  {
    hide ParseModule, WriteTypedefs, WriteEnums, WriteStructs, WriteModules, TypedefWritable, StructWritable;
    var k3 := WriteModules(m.modules, k);
    var k2 := WriteStructs(m.structs, k3);
    var k1 := WriteEnums(m.enums, k2);
    var m1 := before.(typedefs := before.typedefs + m.typedefs);
    var m2 := m1.(enums := m1.enums + m.enums);
    TypedefsRead(m.typedefs, k1, before);
    EnumsRead(m.enums, k2, m1);
    StructsRead(m.structs, k3, m2);
    ModulesRead(m.modules, k, m2.(structs := m2.structs + m.structs));
  }

  lemma {:induction false} ModulesRead(ms: seq<Module>, k: Toks, m: Module)
    requires forall i :: 0 <= i < |ms| ==> IsIdent(ms[i].name) && ModuleWritable(ms[i])
    ensures ParseModule(WriteModules(ms, k), m) == ParseModule(k, m.(modules := m.modules + ms))
    decreases ms, 0
  {
    hide WriteModule, ModuleWritable, ParseNamedModule, ParseStruct, ParseEnum, ParseTypedef, SkipUnknown;
    if |ms| > 0 {
      var rest := WriteModules(ms[1..], k);
      NamedReads(ms[0], rest);
      ModulesRead(ms[1..], k, m.(modules := m.modules + [ms[0]]));
      assert m.modules + [ms[0]] + ms[1..] == m.modules + ms;
    } else {
      assert m.modules + ms == m.modules;
    }
  }

  lemma {:induction false} NamedReads(m: Module, k: Toks)
    requires ModuleWritable(m)
    ensures ParseNamedModule(Word(m.name, Mark(LBrace, "{", WriteModule(m, WriteEnd(k))))) == Ok(m, k)
    decreases m, 2
  {
    hide WriteModule, ModuleWritable;
    ModuleReads(m, WriteEnd(k), EMPTY);
    ExtendedEmpty(m);
    StopsAtBrace(WriteEnd(k), Extended(EMPTY, m));
  }

  lemma {:induction false} ExtendedEmpty(m: Module)
    ensures Extended(EMPTY, m).(name := m.name) == m
  {
    assert [] + m.typedefs == m.typedefs && [] + m.enums == m.enums;
    assert [] + m.structs == m.structs && [] + m.modules == m.modules;
  }

  lemma {:induction false} StopsAtBrace(k: Toks, m: Module)
    requires Is(k, RBrace) || k.End?
    ensures ParseModule(k, m) == Ok(m, k)
  {}

  // ---- Other ways to write the same -------------------------------------

  /** The bounds of strings and sequences are passed over, whatever they are. */
  lemma {:induction false} TypeBoundsArePassed(t: TypeSpec, bound: Token, k: Toks)
    requires Writable(t)
    ensures var end := Cons(bound, Mark(RAngle, ">", k));
      && ParseType(Word("string", Mark(LAngle, "<", end))) == Ok(Primitive(PString), k)
      && ParseType(Word("sequence", Mark(LAngle, "<", WriteType(t, Mark(Comma, ",", end))))) == Ok(Sequence(Some(t)), k)
  {
    hide WriteType, ParseQualified, ParseUnsigned;
    TypeReads(t, Mark(Comma, ",", Cons(bound, Mark(RAngle, ">", k))));
  }

  function WriteAnnotations(names: seq<string>, k: Toks): Toks {
    if |names| == 0 then k else Mark(At, "@", Word(names[0], WriteAnnotations(names[1..], k)))
  }

  lemma {:induction false} AnnotationsRead(names: seq<string>, k: Toks, isKey: bool)
    requires !Is(k, At) && !Is(k, LBrace)
    ensures ParseAnnotations(WriteAnnotations(names, k), isKey) == (isKey || "key" in names, k)
    decreases |names|
  {
    if |names| > 0 {
      var rest := WriteAnnotations(names[1..], k);
      assert !Is(rest, LBrace);
      AnnotationsRead(names[1..], k, isKey || names[0] == "key");
      assert "key" in names <==> names[0] == "key" || "key" in names[1..];
    }
  }

  /** A field is a key field exactly when one of its annotations says so; the
      others mean nothing. */
  lemma {:induction false} AnnotatedFieldReads(names: seq<string>, f: Field, k: Toks)
    requires FieldWritable(f) && !f.key
    ensures ParseField(WriteAnnotations(names, WriteField(f, k))) == Ok(f.(key := "key" in names), k)
  {
    hide ParseType, WriteType, Writable, ParseBound;
    var typ := if f.typ.Array? then f.typ.elem.value else f.typ;
    var bound := WriteBound(f, Mark(Semi, ";", k));
    TypeStartsWithWord(typ, Word(f.name, bound));
    AnnotationsRead(names, WriteField(f, k), false);
    TypeReads(typ, Word(f.name, bound));
    BoundReads(f, k);
  }

  /** The last value of an enum needs no comma. */
  lemma {:induction false} LastCommaIsOptional(vs: seq<string>, v: string, k: Toks, before: seq<string>)
    requires Is(k, RBrace)
    ensures ParseValues(WriteValues(vs, Word(v, k)), before) == (before + vs + [v], k)
    decreases |vs|
  {
    if |vs| > 0 {
      LastCommaIsOptional(vs[1..], v, k, before + [vs[0]]);
      assert before + [vs[0]] + vs[1..] + [v] == before + vs + [v];
    } else {
      assert before + vs + [v] == before + [v];
    }
  }

  /** The brace of a module needs no semicolon. */
  lemma {:induction false} LastSemicolonIsOptional(m: Module, k: Toks)
    requires ModuleWritable(m) && !Is(k, Semi)
    ensures ParseNamedModule(Word(m.name, Mark(LBrace, "{", WriteModule(m, Mark(RBrace, "}", k))))) == Ok(m, k)
  {
    hide WriteModule, ModuleWritable;
    var end := Mark(RBrace, "}", k);
    ModuleReads(m, end, EMPTY);
    ExtendedEmpty(m);
    StopsAtBrace(end, Extended(EMPTY, m));
  }

  predicate NoneCloses(ts: seq<Token>) {
    forall i :: 0 <= i < |ts| ==> ts[i].kind != Eof && ts[i].kind != RBrace
  }

  lemma {:induction false} BracesRunOn(ts: seq<Token>, k: Toks)
    requires NoneCloses(ts)
    ensures SkipBraces(Tokens(ts, Mark(RBrace, "}", k))) == k
    decreases |ts|
  {
    if |ts| > 0 { BracesRunOn(ts[1..], k); }
  }

  /** What stands in braces behind an annotation is passed over. */
  lemma {:induction false} AnnotationBracesArePassed(name: string, ts: seq<Token>, k: Toks, isKey: bool)
    requires NoneCloses(ts)
    ensures ParseAnnotations(Mark(At, "@", Word(name, Mark(LBrace, "{", Tokens(ts, Mark(RBrace, "}", k))))), isKey)
            == ParseAnnotations(k, isKey || name == "key")
  {
    hide NoneCloses;
    BracesRunOn(ts, k);
    assert SkipBraces(Mark(LBrace, "{", Tokens(ts, Mark(RBrace, "}", k)))) == k;
  }

  predicate IsDeclWord(w: string) { w == "module" || w == "struct" || w == "enum" || w == "typedef" }

  // Tokens among which an unknown declaration does not end.
  predicate RunsOn(ts: seq<Token>) {
    forall i :: 0 <= i < |ts| ==> ts[i].kind != Eof && ts[i].kind != Semi && ts[i].kind != RBrace
  }

  function Tokens(ts: seq<Token>, k: Toks): Toks {
    if |ts| == 0 then k else Cons(ts[0], Tokens(ts[1..], k))
  }

  lemma {:induction false} UnknownRunsOn(ts: seq<Token>, k: Toks)
    requires RunsOn(ts)
    ensures SkipUnknown(Tokens(ts, k)) == SkipUnknown(k)
    decreases |ts|
  {
    if |ts| > 0 { UnknownRunsOn(ts[1..], k); }
  }

  /** An unknown declaration is passed over up to its semicolon, and no further. */
  lemma {:induction false} UnknownIsPassed(w: string, ts: seq<Token>, k: Toks, m: Module)
    requires !IsDeclWord(w) && RunsOn(ts)
    ensures ParseModule(Word(w, Tokens(ts, Mark(Semi, ";", k))), m) == ParseModule(k, m)
  {
    hide ParseStruct, ParseEnum, ParseTypedef, ParseNamedModule, RunsOn;
    UnknownRunsOn(ts, Mark(Semi, ";", k));
  }

  // ---- The tokens are text ----------------------------------------------

  lemma {:induction false} WordsAreIdents()
    ensures IsIdent("boolean") && IsIdent("octet") && IsIdent("short") && IsIdent("unsigned") && IsIdent("long")
    ensures IsIdent("float") && IsIdent("double") && IsIdent("string") && IsIdent("sequence")
    ensures IsIdent("struct") && IsIdent("enum") && IsIdent("typedef") && IsIdent("module") && IsIdent("key")
  {
    hide IsIdent, IdentRun;
    LettersAreIdent("boolean"); LettersAreIdent("octet"); LettersAreIdent("short"); LettersAreIdent("unsigned");
    LettersAreIdent("long"); LettersAreIdent("float"); LettersAreIdent("double"); LettersAreIdent("string");
    LettersAreIdent("sequence"); LettersAreIdent("struct"); LettersAreIdent("enum"); LettersAreIdent("typedef");
    LettersAreIdent("module"); LettersAreIdent("key");
  }

  lemma {:induction false} LettersAreIdent(s: string)
    requires forall i :: 0 <= i < |s| ==> IsIdentStart(s[i])
    ensures IdentRun(s) == |s| && (|s| > 0 ==> IsIdent(s))
    decreases |s|
  {
    if |s| > 0 { LettersAreIdent(s[1..]); }
  }

  lemma {:induction false} DigitsRun(s: string)
    requires forall i :: 0 <= i < |s| ==> T.IsDigit(s[i])
    ensures DigitRun(s) == |s|
    decreases |s|
  {
    if |s| > 0 { DigitsRun(s[1..]); }
  }

  lemma {:induction false} SegmentsOk(segs: seq<string>, k: Toks)
    requires ToksOk(k) && forall i :: 0 <= i < |segs| ==> IsIdent(segs[i])
    ensures ToksOk(WriteSegments(segs, k))
    decreases |segs|
  {
    if |segs| > 0 { SegmentsOk(segs[1..], k); }
  }

  lemma {:induction false} TypeOk(t: TypeSpec, k: Toks)
    requires Writable(t) && ToksOk(k)
    ensures ToksOk(WriteType(t, k))
    decreases Depth(t)
  {
    hide IsIdent, IdentRun;
    WordsAreIdents();
    match t
    case Primitive(p) => PrimOkToks(p, k);
    case Sequence(e) =>
      TypeOk(e.value, Mark(RAngle, ">", k));
      WordOk("sequence", Mark(LAngle, "<", WriteType(e.value, Mark(RAngle, ">", k))));
    case Named(name, isEnum) =>
      SegmentsOk(Segments(name)[1..], k);
      WordOk(Segments(name)[0], WriteSegments(Segments(name)[1..], k));
  }

  lemma {:induction false} WordOk(w: string, k: Toks)
    requires IsIdent(w) && ToksOk(k)
    ensures ToksOk(Word(w, k))
  {}

  lemma {:induction false} PrimOkToks(p: Prim, k: Toks)
    requires ToksOk(k)
    ensures ToksOk(WritePrim(p, k))
  {
    hide IsIdent, IdentRun;
    WordsAreIdents();
    match p
    case PBool => WordOk("boolean", k);
    case POctet => WordOk("octet", k);
    case PShort => WordOk("short", k);
    case PUShort => WordOk("short", k); WordOk("unsigned", Word("short", k));
    case PLong => WordOk("long", k);
    case PULong => WordOk("long", k); WordOk("unsigned", Word("long", k));
    case PLongLong => WordOk("long", k); WordOk("long", Word("long", k));
    case PULongLong =>
      WordOk("long", k);
      WordOk("long", Word("long", k));
      WordOk("unsigned", Word("long", Word("long", k)));
    case PFloat => WordOk("float", k);
    case PDouble => WordOk("double", k);
    case PString => WordOk("string", k);
  }

  lemma {:induction false} MarkOk(kind: TokKind, s: string, k: Toks)
    requires TokOk(Token(kind, s, 1)) && ToksOk(k)
    ensures ToksOk(Mark(kind, s, k))
  {}

  lemma {:induction false} FieldOk(f: Field, k: Toks)
    requires FieldWritable(f) && ToksOk(k)
    ensures ToksOk(WriteField(f, k))
  {
    hide WriteType, Writable, IdentRun, DigitRun, WriteBound;
    var typ := if f.typ.Array? then f.typ.elem.value else f.typ;
    var bound := WriteBound(f, Mark(Semi, ";", k));
    MarkOk(Semi, ";", k);
    BoundOk(f, Mark(Semi, ";", k));
    WordOk(f.name, bound);
    TypeOk(typ, Word(f.name, bound));
    if f.key { KeyOk(WriteType(typ, Word(f.name, bound))); }
  }

  lemma {:induction false} BoundOk(f: Field, end: Toks)
    requires ToksOk(end)
    ensures ToksOk(WriteBound(f, end))
  {
    hide DigitRun;
    if f.typ.Array? {
      var n := T.Decimal(f.typ.size);
      DigitsRun(n);
      MarkOk(RBracket, "]", end);
      MarkOk(Number, n, Mark(RBracket, "]", end));
      MarkOk(LBracket, "[", Mark(Number, n, Mark(RBracket, "]", end)));
    }
  }

  lemma {:induction false} KeyOk(k: Toks)
    requires ToksOk(k)
    ensures ToksOk(Mark(At, "@", Word("key", k)))
  {
    hide IdentRun;
    WordsAreIdents();
    WordOk("key", k);
    MarkOk(At, "@", Word("key", k));
  }

  lemma {:induction false} FieldsOk(fs: seq<Field>, k: Toks)
    requires (forall i :: 0 <= i < |fs| ==> FieldWritable(fs[i])) && ToksOk(k)
    ensures ToksOk(WriteFields(fs, k))
    decreases |fs|
  {
    hide FieldWritable, WriteField;
    if |fs| > 0 {
      FieldsOk(fs[1..], k);
      FieldOk(fs[0], WriteFields(fs[1..], k));
    }
  }

  lemma {:induction false} StructOk(s: Struct, k: Toks)
    requires StructWritable(s) && ToksOk(k)
    ensures ToksOk(WriteStruct(s, k))
  {
    hide FieldWritable, WriteFields, IdentRun;
    WordsAreIdents();
    FieldsOk(s.fields, WriteEnd(k));
    WordOk(s.name, Mark(LBrace, "{", WriteFields(s.fields, WriteEnd(k))));
    WordOk("struct", Word(s.name, Mark(LBrace, "{", WriteFields(s.fields, WriteEnd(k)))));
  }

  lemma {:induction false} ValuesOk(vs: seq<string>, k: Toks)
    requires (forall i :: 0 <= i < |vs| ==> IsIdent(vs[i])) && ToksOk(k)
    ensures ToksOk(WriteValues(vs, k))
    decreases |vs|
  {
    hide IdentRun;
    if |vs| > 0 { ValuesOk(vs[1..], k); }
  }

  lemma {:induction false} EnumOk(e: Enum, k: Toks)
    requires EnumWritable(e) && ToksOk(k)
    ensures ToksOk(WriteEnum(e, k))
  {
    hide WriteValues, IdentRun;
    WordsAreIdents();
    ValuesOk(e.values, WriteEnd(k));
    WordOk(e.name, Mark(LBrace, "{", WriteValues(e.values, WriteEnd(k))));
    WordOk("enum", Word(e.name, Mark(LBrace, "{", WriteValues(e.values, WriteEnd(k)))));
  }

  lemma {:induction false} TypedefOk(t: Typedef, k: Toks)
    requires TypedefWritable(t) && ToksOk(k)
    ensures ToksOk(WriteTypedef(t, k))
  {
    hide WriteType, Writable, IdentRun;
    WordsAreIdents();
    WordOk(t.name, Mark(Semi, ";", k));
    TypeOk(t.typ, Word(t.name, Mark(Semi, ";", k)));
    WordOk("typedef", WriteType(t.typ, Word(t.name, Mark(Semi, ";", k))));
  }

  lemma {:induction false} TypedefsOk(ts: seq<Typedef>, k: Toks)
    requires (forall i :: 0 <= i < |ts| ==> TypedefWritable(ts[i])) && ToksOk(k)
    ensures ToksOk(WriteTypedefs(ts, k))
    decreases |ts|
  {
    hide TypedefWritable, WriteTypedef;
    if |ts| > 0 {
      TypedefsOk(ts[1..], k);
      TypedefOk(ts[0], WriteTypedefs(ts[1..], k));
    }
  }

  lemma {:induction false} EnumsOk(es: seq<Enum>, k: Toks)
    requires (forall i :: 0 <= i < |es| ==> EnumWritable(es[i])) && ToksOk(k)
    ensures ToksOk(WriteEnums(es, k))
    decreases |es|
  {
    hide EnumWritable, WriteEnum;
    if |es| > 0 {
      EnumsOk(es[1..], k);
      EnumOk(es[0], WriteEnums(es[1..], k));
    }
  }

  lemma {:induction false} StructsOk(ss: seq<Struct>, k: Toks)
    requires (forall i :: 0 <= i < |ss| ==> StructWritable(ss[i])) && ToksOk(k)
    ensures ToksOk(WriteStructs(ss, k))
    decreases |ss|
  {
    hide StructWritable, WriteStruct;
    if |ss| > 0 {
      StructsOk(ss[1..], k);
      StructOk(ss[0], WriteStructs(ss[1..], k));
    }
  }

  lemma {:induction false} ModuleOk(m: Module, k: Toks)
    requires ModuleWritable(m) && ToksOk(k)
    ensures ToksOk(WriteModule(m, k))
    decreases m, 1
  {
    hide WriteTypedefs, WriteEnums, WriteStructs, WriteModules, TypedefWritable, EnumWritable, StructWritable, ToksOk;
    ModulesOk(m.modules, k);
    StructsOk(m.structs, WriteModules(m.modules, k));
    EnumsOk(m.enums, WriteStructs(m.structs, WriteModules(m.modules, k)));
    TypedefsOk(m.typedefs, WriteEnums(m.enums, WriteStructs(m.structs, WriteModules(m.modules, k))));
  }

  lemma {:induction false} ModulesOk(ms: seq<Module>, k: Toks)
    requires (forall i :: 0 <= i < |ms| ==> IsIdent(ms[i].name) && ModuleWritable(ms[i])) && ToksOk(k)
    ensures ToksOk(WriteModules(ms, k))
    decreases ms, 0
  {
    hide WriteModule, ModuleWritable, IdentRun;
    if |ms| > 0 {
      WordsAreIdents();
      ModulesOk(ms[1..], k);
      ModuleOk(ms[0], WriteEnd(WriteModules(ms[1..], k)));
      WordOk(ms[0].name, Mark(LBrace, "{", WriteModule(ms[0], WriteEnd(WriteModules(ms[1..], k)))));
      WordOk("module", Word(ms[0].name, Mark(LBrace, "{", WriteModule(ms[0], WriteEnd(WriteModules(ms[1..], k))))));
    }
  }

  /** Parsing the canonical text of a module gives the module. */
  lemma {:induction false} ParseInvertsRender(m: Module)
    requires ModuleWritable(m) && m.name == ""
    ensures ParseText(Render(m)) == Success(m)
  {
    hide ParseModule, WriteModule, ModuleWritable, Text, LexAll, Extended;
    ModuleOk(m, End(1));
    TextLexes(WriteModule(m, End(1)));
    ModuleReads(m, End(1), EMPTY);
    StopsAtBrace(End(1), Extended(EMPTY, m));
    ExtendedEmpty(m);
    EmptyName(m);
  }

  lemma {:induction false} EmptyName(m: Module)
    requires m.name == ""
    ensures Extended(EMPTY, m).(name := m.name) == Extended(EMPTY, m)
  {}

  // ---- The parser -------------------------------------------------------

  /** What a parsing method answers; the source throws the error. */
  datatype Outcome<+V> = Done(value: V) | Fail(error: ParseError)

  ghost predicate Meets<V>(spec: Parsed<V>, r: Outcome<V>, rest: Toks) {
    match spec case Ok(v, k) => r == Done(v) && rest == k case Err(e) => r == Fail(e)
  }

  class Parser {
    const lx: Lexer
    var cur: Token
    var peeked: bool

    // The tokens still to come, a peeked one included.
    ghost function Ahead(): Toks
      reads this, lx
      requires lx.Valid()
    {
      var rest := LexAll(lx.Rest(), lx.line);
      if !peeked then rest else if cur.kind == Eof then End(cur.line) else Cons(cur, rest)
    }

    ghost predicate Valid()
      reads this, lx
    {
      && lx.Valid()
      && (peeked && cur.kind == Eof ==> cur.val == "" && LexAll(lx.Rest(), lx.line) == End(cur.line))
    }

    constructor (src: string)
      ensures Valid() && fresh(lx) && Ahead() == LexAll(src, 1)
    {
      hide LexAll;
      lx := new Lexer(src);
      cur, peeked := Token(Eof, "", 1), false;
    }

    method PeekTok() returns (t: Token)
      requires Valid()
      modifies this, lx
      ensures Valid() && peeked && cur == t && t == Peek(Ahead()) && Ahead() == old(Ahead())
    {
      if !peeked {
        EndIsEnd(lx.Rest(), lx.line);
        cur := lx.Next();
        peeked := true;
      }
      t := cur;
    }

    method Consume() returns (t: Token)
      requires Valid()
      modifies this, lx
      ensures Valid() && t == Peek(old(Ahead())) && Ahead() == Drop(old(Ahead()))
    {
      hide LexAll;
      t := PeekTok();
      peeked := false;
    }

    method ExpectTok(k: TokKind, desc: string) returns (r: Outcome<string>)
      requires Valid()
      modifies this, lx
      ensures Valid() && Meets(Expect(old(Ahead()), k, desc), r, Ahead())
    {
      hide LexAll;
      var t := Consume();
      if t.kind != k { return Fail(Failure(t, "expected " + desc + ", got")); }
      return Done(t.val);
    }

    method ReadType() returns (r: Outcome<TypeSpec>)
      requires Valid()
      modifies this, lx
      ensures Valid() && Meets(ParseType(old(Ahead())), r, Ahead())
      decreases Len(Ahead())
    {
      hide LexAll, ParseQualified, ParseUnsigned, ParseStringType;
      var t := Consume();
      if t.kind != Ident { return Fail(Failure(t, "expected type name, got")); }
      if Simple(t.val).Some? { return Done(Primitive(Simple(t.val).value)); }
      if t.val == "string" { r := ReadStringType(); return; }
      if t.val == "long" {
        var next := PeekTok();
        if next.val == "long" {
          var _ := Consume();
          return Done(Primitive(PLongLong));
        }
        return Done(Primitive(PLong));
      }
      if t.val == "unsigned" { r := ReadUnsigned(); return; }
      if t.val == "sequence" { r := ReadSequence(); return; }
      r := ReadQualified(t.val);
    }

    method ReadSequence() returns (r: Outcome<TypeSpec>)
      requires Valid()
      modifies this, lx
      ensures Valid() && Meets(ParseSequence(old(Ahead())), r, Ahead())
      decreases Len(Ahead()), 0
    {
      hide LexAll, ParseType;
      var x := ExpectTok(LAngle, "<");
      if x.Fail? { return Fail(x.error); }
      var elem := ReadType();
      if elem.Fail? { return elem; }
      var next := PeekTok();
      if next.kind == Comma {
        var _ := Consume();
        var _ := Consume();
      }
      x := ExpectTok(RAngle, ">");
      if x.Fail? { return Fail(x.error); }
      return Done(Sequence(Some(elem.value)));
    }

    method ReadStringType() returns (r: Outcome<TypeSpec>)
      requires Valid()
      modifies this, lx
      ensures Valid() && Meets(ParseStringType(old(Ahead())), r, Ahead())
    {
      hide LexAll;
      var next := PeekTok();
      if next.kind == LAngle {
        var _ := Consume();
        var _ := Consume();
        var x := ExpectTok(RAngle, ">");
        if x.Fail? { return Fail(x.error); }
      }
      return Done(Primitive(PString));
    }

    method ReadUnsigned() returns (r: Outcome<TypeSpec>)
      requires Valid()
      modifies this, lx
      ensures Valid() && Meets(ParseUnsigned(old(Ahead())), r, Ahead())
    {
      hide LexAll;
      var next := Consume();
      if next.kind != Ident { return Fail(Failure(next, "expected type after 'unsigned', got")); }
      if next.val == "short" { return Done(Primitive(PUShort)); }
      if next.val == "long" {
        var after := PeekTok();
        if after.val == "long" {
          var _ := Consume();
          return Done(Primitive(PULongLong));
        }
        return Done(Primitive(PULong));
      }
      return Fail(Failure(next, "unknown unsigned type"));
    }

    method ReadQualified(first: string) returns (r: Outcome<TypeSpec>)
      requires Valid()
      modifies this, lx
      ensures Valid() && Meets(ParseQualified(old(Ahead()), first), r, Ahead())
    {
      hide LexAll;
      var name := first;
      while true
        invariant Valid() && ParseQualified(Ahead(), name) == ParseQualified(old(Ahead()), first)
        decreases Len(Ahead())
      {
        var t := PeekTok();
        if t.kind != DoubleColon { break; }
        var _ := Consume();
        var next := Consume();
        if next.kind != Ident { return Fail(Failure(next, "expected name after '::', got")); }
        name := name + "::" + next.val;
      }
      return Done(Named(name, false));
    }

    method ReadAnnotations() returns (isKey: bool)
      requires Valid()
      modifies this, lx
      ensures Valid() && (isKey, Ahead()) == ParseAnnotations(old(Ahead()), false)
    {
      hide LexAll, SkipBraces;
      isKey := false;
      while true
        invariant Valid() && ParseAnnotations(Ahead(), isKey) == ParseAnnotations(old(Ahead()), false)
        decreases Len(Ahead())
      {
        var t := PeekTok();
        if t.kind != At { break; }
        var _ := Consume();
        var annot := Consume();
        if annot.val == "key" { isKey := true; }
        var next := PeekTok();
        if next.kind == LBrace { PassBraces(); }
      }
    }

    method PassBraces()
      requires Valid()
      modifies this, lx
      ensures Valid() && Ahead() == SkipBraces(old(Ahead()))
    {
      hide LexAll;
      while true
        invariant Valid() && SkipBraces(Ahead()) == SkipBraces(old(Ahead()))
        decreases Len(Ahead())
      {
        var t := PeekTok();
        if t.kind == RBrace || t.kind == Eof { break; }
        var _ := Consume();
      }
      var t := PeekTok();
      if t.kind == RBrace { var _ := Consume(); }
    }

    method ReadBound(t: TypeSpec) returns (r: Outcome<TypeSpec>)
      requires Valid()
      modifies this, lx
      ensures Valid() && Meets(ParseBound(old(Ahead()), t), r, Ahead())
    {
      hide LexAll;
      var next := PeekTok();
      if next.kind != LBracket { return Done(t); }
      var _ := Consume();
      var size := Consume();
      if size.kind != Number { return Fail(Failure(size, "expected array size, got")); }
      var x := ExpectTok(RBracket, "]");
      if x.Fail? { return Fail(x.error); }
      var n := T.NumberOf(size.val);
      if n < 0 || n > MAX_INT { return Fail(Failure(size, "invalid array size")); }
      return Done(Array(Some(t), n));
    }

    method ReadField() returns (r: Outcome<Field>)
      requires Valid()
      modifies this, lx
      ensures Valid() && Meets(ParseField(old(Ahead())), r, Ahead())
    {
      hide LexAll, ParseType, ParseAnnotations, ParseBound;
      var isKey := ReadAnnotations();
      var t := ReadType();
      if t.Fail? { return Fail(t.error); }
      var name := ExpectTok(Ident, "field name");
      if name.Fail? { return Fail(name.error); }
      var typ := ReadBound(t.value);
      if typ.Fail? { return Fail(typ.error); }
      var x := ExpectTok(Semi, ";");
      if x.Fail? { return Fail(x.error); }
      return Done(Field(name.value, typ.value, isKey));
    }

    method ReadEnd() returns (r: Outcome<()>)
      requires Valid()
      modifies this, lx
      ensures Valid() && Meets(ParseEnd(old(Ahead()), ()), r, Ahead())
    {
      hide LexAll;
      var x := ExpectTok(RBrace, "}");
      if x.Fail? { return Fail(x.error); }
      x := ExpectTok(Semi, ";");
      if x.Fail? { return Fail(x.error); }
      return Done(());
    }

    method ReadFields() returns (r: Outcome<seq<Field>>)
      requires Valid()
      modifies this, lx
      ensures Valid() && Meets(ParseFields(old(Ahead()), []), r, Ahead())
    {
      hide LexAll, ParseField;
      var fields: seq<Field> := [];
      while true
        invariant Valid() && ParseFields(Ahead(), fields) == ParseFields(old(Ahead()), [])
        decreases Len(Ahead())
      {
        var t := PeekTok();
        if t.kind == RBrace || t.kind == Eof { break; }
        var f := ReadField();
        if f.Fail? { return Fail(f.error); }
        fields := fields + [f.value];
      }
      return Done(fields);
    }

    method ReadStruct() returns (r: Outcome<Struct>)
      requires Valid()
      modifies this, lx
      ensures Valid() && Meets(ParseStruct(old(Ahead())), r, Ahead())
    {
      hide LexAll, ParseFields;
      var name := ExpectTok(Ident, "struct name");
      if name.Fail? { return Fail(name.error); }
      var x := ExpectTok(LBrace, "{");
      if x.Fail? { return Fail(x.error); }
      var fields := ReadFields();
      if fields.Fail? { return Fail(fields.error); }
      var end := ReadEnd();
      if end.Fail? { return Fail(end.error); }
      return Done(Struct(name.value, fields.value));
    }

    method ReadValues() returns (values: seq<string>)
      requires Valid()
      modifies this, lx
      ensures Valid() && (values, Ahead()) == ParseValues(old(Ahead()), [])
    {
      hide LexAll;
      values := [];
      while true
        invariant Valid() && ParseValues(Ahead(), values) == ParseValues(old(Ahead()), [])
        decreases Len(Ahead())
      {
        var t := PeekTok();
        if t.kind == RBrace || t.kind == Eof { break; }
        var c := Consume();
        if c.kind == Ident { values := values + [c.val]; }
        var next := PeekTok();
        if next.kind == Comma { var _ := Consume(); }
      }
    }

    method ReadEnum() returns (r: Outcome<Enum>)
      requires Valid()
      modifies this, lx
      ensures Valid() && Meets(ParseEnum(old(Ahead())), r, Ahead())
    {
      hide LexAll, ParseValues;
      var name := ExpectTok(Ident, "enum name");
      if name.Fail? { return Fail(name.error); }
      var x := ExpectTok(LBrace, "{");
      if x.Fail? { return Fail(x.error); }
      var values := ReadValues();
      var end := ReadEnd();
      if end.Fail? { return Fail(end.error); }
      return Done(Enum(name.value, values));
    }

    method ReadTypedef() returns (r: Outcome<Typedef>)
      requires Valid()
      modifies this, lx
      ensures Valid() && Meets(ParseTypedef(old(Ahead())), r, Ahead())
    {
      hide LexAll, ParseType;
      var t := ReadType();
      if t.Fail? { return Fail(t.error); }
      var name := ExpectTok(Ident, "typedef alias name");
      if name.Fail? { return Fail(name.error); }
      var x := ExpectTok(Semi, ";");
      if x.Fail? { return Fail(x.error); }
      return Done(Typedef(name.value, t.value));
    }

    method PassUnknown()
      requires Valid()
      modifies this, lx
      ensures Valid() && Ahead() == SkipUnknown(old(Ahead()))
    {
      hide LexAll;
      while true
        invariant Valid() && SkipUnknown(Ahead()) == SkipUnknown(old(Ahead()))
        decreases Len(Ahead())
      {
        var t := PeekTok();
        if t.kind == Eof || t.kind == Semi || t.kind == RBrace {
          if t.kind == Semi { var _ := Consume(); }
          break;
        }
        var _ := Consume();
      }
    }

    method ReadModule() returns (r: Outcome<Module>)
      requires Valid()
      modifies this, lx
      ensures Valid() && Meets(ParseModule(old(Ahead()), EMPTY), r, Ahead())
      decreases Len(Ahead()), 1
    {
      hide LexAll, ParseNamedModule, ParseStruct, ParseEnum, ParseTypedef, SkipUnknown;
      var m := EMPTY;
      ghost var start := Ahead();
      while true
        invariant Valid() && Len(Ahead()) <= Len(start) && ParseModule(Ahead(), m) == ParseModule(start, EMPTY)
        decreases Len(Ahead())
      {
        var t := PeekTok();
        if t.kind == Eof || t.kind == RBrace { break; }
        var _ := Consume();
        if t.kind != Ident { continue; }
        if t.val == "module" {
          var sub := ReadNamedModule();
          if sub.Fail? { return sub; }
          m := m.(modules := m.modules + [sub.value]);
        } else if t.val == "struct" {
          var s := ReadStruct();
          if s.Fail? { return Fail(s.error); }
          m := m.(structs := m.structs + [s.value]);
        } else if t.val == "enum" {
          var e := ReadEnum();
          if e.Fail? { return Fail(e.error); }
          m := m.(enums := m.enums + [e.value]);
        } else if t.val == "typedef" {
          var td := ReadTypedef();
          if td.Fail? { return Fail(td.error); }
          m := m.(typedefs := m.typedefs + [td.value]);
        } else {
          PassUnknown();
        }
      }
      return Done(m);
    }

    method ReadNamedModule() returns (r: Outcome<Module>)
      requires Valid()
      modifies this, lx
      ensures Valid() && Meets(ParseNamedModule(old(Ahead())), r, Ahead())
      decreases Len(Ahead()), 0
    {
      hide LexAll, ParseModule;
      var name := ExpectTok(Ident, "module name");
      if name.Fail? { return Fail(name.error); }
      var x := ExpectTok(LBrace, "{");
      if x.Fail? { return Fail(x.error); }
      var m := ReadModule();
      if m.Fail? { return m; }
      x := ExpectTok(RBrace, "}");
      if x.Fail? { return Fail(x.error); }
      var next := PeekTok();
      if next.kind == Semi { var _ := Consume(); }
      return Done(m.value.(name := name.value));
    }
  }

  // Once at the end, always at the end.
  lemma {:induction false} EndIsEnd(r: string, line: nat)
    ensures var x := NextToken(r, line);
      x.tok.kind == Eof ==> x.tok == Token(Eof, "", x.line) && |x.rest| == 0 && LexAll(x.rest, x.line) == End(x.line)
  {
    EofIsEmpty(r, line);
  }

  lemma {:induction false} EofIsEmpty(r: string, line: nat)
    ensures var x := NextToken(r, line); x.tok.kind == Eof ==> x.tok == Token(Eof, "", x.line) && |x.rest| == 0
    decreases |r|
  {
    hide Skip;
    var (q, l) := Skip(r, line);
    if |q| > 0 { EofIsEmpty(q[1..], l); }
  }

  method ParseString(src: string) returns (r: ParseResult)
    ensures r == ParseText(src)
  {
    hide LexAll, ParseModule;
    var p := new Parser(src);
    var m := p.ReadModule();
    r := match m case Done(v) => Success(v) case Fail(e) => Failed(e);
  }
}
