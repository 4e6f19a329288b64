/// What the IDL parser (src/idl/parser.cpp) refuses: after a part that is well
/// written, the first token that does not fit is named with its line, and the
/// error is the answer for the whole text.

module Refusals {
  import opened Octets
  import opened Cdr
  import opened Idl
  import opened Lexing
  import opened Parsing
  import T = Texts

  // "idl: line N: ...: "token"", with the line of the token.
  function Complaint(t: Token, what: string): ParseError {
    ParseError(t.line, "idl: line " + T.Decimal(t.line) + ": " + what + " \"" + t.val + "\"")
  }

  function Wanted(t: Token, what: string): ParseError { Complaint(t, "expected " + what + ", got") }

  lemma Expects(ts: Toks, k: TokKind, what: string)
    ensures Expect(ts, k, what) == if Is(ts, k) then Ok(Peek(ts).val, Drop(ts)) else Err(Wanted(Peek(ts), what))
  {}

  lemma Fails(t: Token, what: string)
    ensures Failure(t, what) == Complaint(t, what)
  {}

  lemma WantedIs(t: Token, what: string, text: string)
    requires text == "expected " + what + ", got"
    ensures Failure(t, text) == Wanted(t, what)
  {}

  lemma TypeTexts(t: Token)
    ensures Failure(t, "expected type name, got") == Wanted(t, "type name")
    ensures Failure(t, "expected type after 'unsigned', got") == Wanted(t, "type after 'unsigned'")
  {
    hide Failure, Wanted;
    WantedIs(t, "type name", "expected type name, got");
    UnsignedText(t);
  }

  lemma UnsignedText(t: Token)
    ensures Failure(t, "expected type after 'unsigned', got") == Wanted(t, "type after 'unsigned'")
  {
    hide Failure, Wanted;
    WantedIs(t, "type after 'unsigned'", "expected type after 'unsigned', got");
  }

  lemma OtherTexts(t: Token)
    ensures Failure(t, "expected name after '::', got") == Wanted(t, "name after '::'")
    ensures Failure(t, "expected array size, got") == Wanted(t, "array size")
  {
    hide Failure, Wanted;
    WantedIs(t, "name after '::'", "expected name after '::', got");
    WantedIs(t, "array size", "expected array size, got");
  }

  /** A type is a word; a sequence needs its angles, "unsigned" a width it knows,
      and "::" a name. */
  lemma {:induction false} TypeIsRefused(k: Toks, t: TypeSpec, name: string)
    requires Writable(t) && MayFollow(k)
    ensures !Is(k, Ident) ==> ParseType(k) == Err(Wanted(Peek(k), "type name"))
    ensures ParseType(Word("sequence", k)) == Err(Wanted(Peek(k), "<"))
    ensures !Is(k, RAngle) && !Is(k, Comma) ==>
      ParseType(Word("sequence", Mark(LAngle, "<", WriteType(t, k)))) == Err(Wanted(Peek(k), ">"))
    ensures !Is(k, Ident) ==>
      ParseType(Word("unsigned", k)) == Err(Wanted(Peek(k), "type after 'unsigned'"))
    ensures Is(k, Ident) && Peek(k).val != "short" ==>
      ParseType(Word("unsigned", k)) == Err(Complaint(Peek(k), "unknown unsigned type"))
    ensures !Is(k, Ident) && !IsTypeWord(name) ==>
      ParseType(Word(name, Mark(DoubleColon, "::", k))) == Err(Wanted(Peek(k), "name after '::'"))
  {
    hide Failure, Wanted, Complaint;
    TypeTexts(Peek(k));
    Fails(Peek(k), "unknown unsigned type");
    hide Expect, WriteType;
    Expects(k, LAngle, "<");
    SequenceIsRefused(k, t);
    QualifiedIsRefused(k, name);
  }

  lemma {:induction false} SequenceIsRefused(k: Toks, t: TypeSpec)
    requires Writable(t) && MayFollow(k)
    ensures var open := Mark(LAngle, "<", WriteType(t, k));
      !Is(k, RAngle) && !Is(k, Comma) ==> ParseSequence(open) == Err(Wanted(Peek(k), ">"))
  {
    hide Wanted, Expect, WriteType, ParseType;
    TypeReads(t, k);
    Expects(Mark(LAngle, "<", WriteType(t, k)), LAngle, "<");
    Expects(k, RAngle, ">");
  }

  lemma {:induction false} QualifiedIsRefused(k: Toks, name: string)
    ensures !Is(k, Ident) ==>
      ParseQualified(Mark(DoubleColon, "::", k), name) == Err(Wanted(Peek(k), "name after '::'"))
  {
    hide Failure, Wanted;
    OtherTexts(Peek(k));
  }

  /** A field needs a type, a name and a semicolon. */
  lemma {:induction false} FieldIsRefused(f: Field, k: Toks)
    requires FieldWritable(f) && MayFollow(k)
    ensures var typ := if f.typ.Array? then f.typ.elem.value else f.typ;
      && (!Is(k, Ident) && !Is(k, At) ==> ParseField(k) == Err(Wanted(Peek(k), "type name")))
      && (!Is(k, Ident) ==> ParseField(WriteType(typ, k)) == Err(Wanted(Peek(k), "field name")))
      && (!Is(k, Semi) && !(Is(k, LBracket) && !f.typ.Array?) ==>
            ParseField(WriteType(typ, Word(f.name, WriteBound(f, k)))) == Err(Wanted(Peek(k), ";")))
  {
    var typ := if f.typ.Array? then f.typ.elem.value else f.typ;
    NameIsName(f);
    hide ParseType, WriteType, Writable, ParseBound, WriteBound, Wanted, Expect, FieldWritable, IsName;
    if !Is(k, At) { NoAnnotations(k, false); }
    TypeReads(typ, k);
    TypeIsRefused(k, typ, "");
    TypeStartsWithWord(typ, k);
    NoAnnotations(WriteType(typ, k), false);
    Expects(k, Ident, "field name");
    if !Is(k, Semi) && !(Is(k, LBracket) && !f.typ.Array?) { SemicolonIsMissed(f, k); }
  }

  lemma {:induction false} SemicolonIsMissed(f: Field, k: Toks)
    requires FieldWritable(f) && !Is(k, Semi) && !(Is(k, LBracket) && !f.typ.Array?)
    ensures var typ := if f.typ.Array? then f.typ.elem.value else f.typ;
      ParseField(WriteType(typ, Word(f.name, WriteBound(f, k)))) == Err(Wanted(Peek(k), ";"))
  {
    var typ := if f.typ.Array? then f.typ.elem.value else f.typ;
    NameIsName(f);
    hide ParseType, WriteType, Writable, ParseBound, WriteBound, Wanted, Expect, FieldWritable, IsName;
    var named := Word(f.name, WriteBound(f, k));
    Expects(named, Ident, "field name");
    Expects(k, Semi, ";");
    TypeReads(typ, named);
    TypeStartsWithWord(typ, named);
    NoAnnotations(WriteType(typ, named), false);
    AnyBoundReads(f, k);
  }

  lemma NameIsName(f: Field)
    requires FieldWritable(f)
    ensures Writable(if f.typ.Array? then f.typ.elem.value else f.typ) && f.name != "long"
  {}

  lemma {:induction false} AnyBoundReads(f: Field, k: Toks)
    requires FieldWritable(f) && !(Is(k, LBracket) && !f.typ.Array?)
    ensures ParseBound(WriteBound(f, k), if f.typ.Array? then f.typ.elem.value else f.typ) == Ok(f.typ, k)
  {
    if f.typ.Array? { T.DecimalReads(f.typ.size); }
  }

  /** An array bound is a number that fits an int, in brackets. */
  lemma {:induction false} BoundIsRefused(t: TypeSpec, n: nat, k: Toks)
    ensures !Is(k, Number) ==> ParseBound(Mark(LBracket, "[", k), t) == Err(Wanted(Peek(k), "array size"))
    ensures var size := Token(Number, T.Decimal(n), 1);
      var bound := Mark(LBracket, "[", Cons(size, k));
      && (!Is(k, RBracket) ==> ParseBound(bound, t) == Err(Wanted(Peek(k), "]")))
      && (Is(k, RBracket) && n > 0x7FFF_FFFF ==> ParseBound(bound, t) == Err(Complaint(size, "invalid array size")))
  {
    hide Expect, Failure, Wanted, Complaint;
    var size := Token(Number, T.Decimal(n), 1);
    OtherTexts(Peek(k));
    Fails(size, "invalid array size");
    Expects(k, RBracket, "]");
    T.DecimalReads(n);
  }

  /** A struct needs its name, its braces and its semicolon. */
  lemma {:induction false} StructIsRefused(s: Struct, k: Toks)
    requires StructWritable(s)
    ensures !Is(k, Ident) ==> ParseStruct(k) == Err(Wanted(Peek(k), "struct name"))
    ensures !Is(k, LBrace) ==> ParseStruct(Word(s.name, k)) == Err(Wanted(Peek(k), "{"))
    ensures var open := Word(s.name, Mark(LBrace, "{", WriteFields(s.fields, k)));
      Is(k, Eof) ==> ParseStruct(open) == Err(Wanted(Peek(k), "}"))
    ensures var open := Word(s.name, Mark(LBrace, "{", WriteFields(s.fields, Mark(RBrace, "}", k))));
      !Is(k, Semi) ==> ParseStruct(open) == Err(Wanted(Peek(k), ";"))
  {
    hide ParseFields, WriteFields, FieldWritable, Expect, Wanted;
    Expects(k, Ident, "struct name");
    Expects(k, LBrace, "{");
    Expects(Word(s.name, k), Ident, "struct name");
    var shut := Mark(RBrace, "}", k);
    Expects(k, RBrace, "}");
    Expects(k, Semi, ";");
    Expects(shut, RBrace, "}");
    Opens(s.name, WriteFields(s.fields, k), "struct name");
    Opens(s.name, WriteFields(s.fields, shut), "struct name");
    if Is(k, Eof) { FieldsEnd(s.fields, k, []); }
    FieldsRead(s.fields, shut, []);
  }

  // A name and an opening brace.
  lemma Opens(name: string, k: Toks, what: string)
    ensures Expect(Word(name, Mark(LBrace, "{", k)), Ident, what) == Ok(name, Mark(LBrace, "{", k))
    ensures Expect(Mark(LBrace, "{", k), LBrace, "{") == Ok("{", k)
  {}

  lemma {:induction false} FieldsEnd(fs: seq<Field>, k: Toks, before: seq<Field>)
    requires (forall i :: 0 <= i < |fs| ==> FieldWritable(fs[i])) && Is(k, Eof)
    ensures ParseFields(WriteFields(fs, k), before) == Ok(before + fs, k)
    decreases |fs|
  {
    hide ParseField, WriteField, FieldWritable;
    if |fs| > 0 {
      var rest := WriteFields(fs[1..], k);
      FieldStarts(fs[0], rest);
      FieldReads(fs[0], rest);
      FieldsEnd(fs[1..], k, before + [fs[0]]);
      assert before + [fs[0]] + fs[1..] == before + fs;
    } else {
      assert before + fs == before;
    }
  }

  /** An enum needs its name, its braces and its semicolon. */
  lemma {:induction false} EnumIsRefused(e: Enum, k: Toks)
    ensures !Is(k, Ident) ==> ParseEnum(k) == Err(Wanted(Peek(k), "enum name"))
    ensures !Is(k, LBrace) ==> ParseEnum(Word(e.name, k)) == Err(Wanted(Peek(k), "{"))
    ensures var open := Word(e.name, Mark(LBrace, "{", WriteValues(e.values, Mark(RBrace, "}", k))));
      !Is(k, Semi) ==> ParseEnum(open) == Err(Wanted(Peek(k), ";"))
  {
    hide ParseValues, WriteValues, Expect, Wanted;
    Expects(k, Ident, "enum name");
    Expects(k, LBrace, "{");
    Expects(Word(e.name, k), Ident, "enum name");
    var shut := Mark(RBrace, "}", k);
    Expects(shut, RBrace, "}");
    Expects(k, Semi, ";");
    Opens(e.name, WriteValues(e.values, shut), "enum name");
    ValuesRead(e.values, shut, []);
  }

  /** A typedef needs its type, its alias and its semicolon. */
  lemma {:induction false} TypedefIsRefused(t: Typedef, k: Toks)
    requires TypedefWritable(t) && MayFollow(k)
    ensures !Is(k, Ident) ==> ParseTypedef(k) == Err(Wanted(Peek(k), "type name"))
    ensures !Is(k, Ident) ==> ParseTypedef(WriteType(t.typ, k)) == Err(Wanted(Peek(k), "typedef alias name"))
    ensures !Is(k, Semi) ==>
      ParseTypedef(WriteType(t.typ, Word(t.name, k))) == Err(Wanted(Peek(k), ";"))
  {
    assert t.name != "long";
    hide ParseType, WriteType, Expect, Wanted, Writable, IsName;
    TypeIsRefused(k, t.typ, "");
    TypeReads(t.typ, k);
    TypeReads(t.typ, Word(t.name, k));
    Expects(k, Ident, "typedef alias name");
    Expects(Word(t.name, k), Ident, "typedef alias name");
    Expects(k, Semi, ";");
  }

  /** A module needs its name and its braces. */
  lemma {:induction false} ModuleIsRefused(m: Module, k: Toks)
    requires ModuleWritable(m)
    ensures !Is(k, Ident) ==> ParseNamedModule(k) == Err(Wanted(Peek(k), "module name"))
    ensures !Is(k, LBrace) ==> ParseNamedModule(Word(m.name, k)) == Err(Wanted(Peek(k), "{"))
    ensures k.End? ==> ParseNamedModule(Word(m.name, Mark(LBrace, "{", WriteModule(m, k))))
                       == Err(Wanted(Peek(k), "}"))
  {
    hide WriteModule, ModuleWritable, ParseModule, Expect, Wanted;
    Expects(k, Ident, "module name");
    Expects(k, LBrace, "{");
    Expects(Word(m.name, k), Ident, "module name");
    Expects(k, RBrace, "}");
    Opens(m.name, WriteModule(m, k), "module name");
    ModuleReads(m, k, EMPTY);
    if k.End? { StopsAtBrace(k, Extended(EMPTY, m)); }
  }

  /** The first error is the answer, whatever was read before it. */
  lemma {:induction false} FirstErrorIsFinal(ts: Toks, before: Module, m: Module)
    requires ModuleWritable(before)
    ensures ParseStruct(ts).Err? ==>
      ParseModule(WriteModule(before, Word("struct", ts)), m) == Err(ParseStruct(ts).error)
    ensures ParseEnum(ts).Err? ==> ParseModule(WriteModule(before, Word("enum", ts)), m) == Err(ParseEnum(ts).error)
    ensures ParseTypedef(ts).Err? ==>
      ParseModule(WriteModule(before, Word("typedef", ts)), m) == Err(ParseTypedef(ts).error)
    ensures ParseNamedModule(ts).Err? ==>
      ParseModule(WriteModule(before, Word("module", ts)), m) == Err(ParseNamedModule(ts).error)
  {
    hide ParseStruct, ParseEnum, ParseTypedef, ParseNamedModule, WriteModule, ModuleWritable, SkipUnknown;
    ModuleReads(before, Word("struct", ts), m);
    ModuleReads(before, Word("enum", ts), m);
    ModuleReads(before, Word("typedef", ts), m);
    ModuleReads(before, Word("module", ts), m);
  }

  /** In a struct, a field that is refused makes the struct refused. */
  lemma {:induction false} FieldErrorIsFinal(name: string, fs: seq<Field>, k: Toks, before: seq<Field>)
    requires (forall i :: 0 <= i < |fs| ==> FieldWritable(fs[i])) && !Is(k, RBrace) && !Is(k, Eof) && ParseField(k).Err?
    ensures ParseFields(WriteFields(fs, k), before) == Err(ParseField(k).error)
    ensures ParseStruct(Word(name, Mark(LBrace, "{", WriteFields(fs, k)))) == Err(ParseField(k).error)
    decreases |fs|
  {
    hide ParseField, WriteField, FieldWritable;
    FieldsStop(fs, k, before);
    FieldsStop(fs, k, []);
    hide ParseFields, WriteFields;
  }

  lemma {:induction false} FieldsStop(fs: seq<Field>, k: Toks, before: seq<Field>)
    requires (forall i :: 0 <= i < |fs| ==> FieldWritable(fs[i])) && !Is(k, RBrace) && !Is(k, Eof) && ParseField(k).Err?
    ensures ParseFields(WriteFields(fs, k), before) == Err(ParseField(k).error)
    decreases |fs|
  {
    hide ParseField, WriteField, FieldWritable;
    if |fs| > 0 {
      var rest := WriteFields(fs[1..], k);
      FieldStarts(fs[0], rest);
      FieldReads(fs[0], rest);
      FieldsStop(fs[1..], k, before + [fs[0]]);
    }
  }
}
