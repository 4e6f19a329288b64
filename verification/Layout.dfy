module Layouts {
  // Laying IDL out (src/idl/parser.cpp): white space, comments and the stray
  // characters between tokens change nothing but the tokens' lines, and lines
  // change nothing the parser answers.

  import opened Octets
  import opened Cdr
  import opened Idl
  import opened Lexing
  import opened Parsing
  import T = Texts

  /** What may stand between two tokens. */
  datatype Blank =
    | Space(c: char)
    | LineNote(note: string)     // "//", the note, and the end of the line
    | BlockNote(note: string)    // "/*", the note, "*/"
    | Stray(c: char)             // a character that begins no token

  type Gap = seq<Blank>

  /** A text, token by token, with what stands in front of each; at the end
      there may be a line comment that nothing closes. */
  datatype Layout = Ending(gap: Gap, note: Option<string>) | Laid(gap: Gap, kind: TokKind, val: string, rest: Layout)

  function BlankText(b: Blank): string {
    match b
    case Space(c) => [c]
    case LineNote(note) => "//" + (note + "\n")
    case BlockNote(note) => "/*" + (note + "*/")
    case Stray(c) => [c]
  }

  function GapText(g: Gap): string {
    if |g| == 0 then "" else BlankText(g[0]) + GapText(g[1..])
  }

  function NoteText(note: Option<string>): string {
    match note case None => "" case Some(s) => "//" + s
  }

  function LayoutText(l: Layout): string {
    match l
    case Ending(gap, note) => GapText(gap) + NoteText(note)
    case Laid(gap, _, val, rest) => GapText(gap) + (val + LayoutText(rest))
  }

  // How many line ends a text holds.
  function Lines(s: string): nat {
    if |s| == 0 then 0 else Newline(s[0]) + Lines(s[1..])
  }

  predicate OneLine(s: string) { forall i :: 0 <= i < |s| ==> s[i] != '\n' }

  predicate Unclosed(s: string) { forall i :: 0 <= i < |s| - 1 ==> !(s[i] == '*' && s[i + 1] == '/') }

  predicate IsStray(c: char) {
    Punctuation(c) == Eof && c != ':' && c != '/' && !T.IsSpace(c) && !IsIdentCont(c)
  }

  predicate BlankOk(b: Blank) {
    match b
    case Space(c) => T.IsSpace(c)
    case LineNote(note) => OneLine(note)
    case BlockNote(note) => Unclosed(note)
    case Stray(c) => IsStray(c)
  }

  predicate GapOk(g: Gap) { forall i :: 0 <= i < |g| ==> BlankOk(g[i]) }

  // Two words or numbers that would run together need something between them.
  predicate MustPart(a: TokKind, b: TokKind) {
    (a == Ident && (b == Ident || b == Number)) || (a == Number && b == Number)
  }

  predicate LayoutOk(l: Layout) {
    && GapOk(l.gap)
    && match l
       case Ending(_, note) => note.Some? ==> OneLine(note.value)
       case Laid(_, kind, val, rest) =>
         && IsToken(Token(kind, val, 1)) && LayoutOk(rest)
         && (rest.Laid? && rest.gap == [] ==> !MustPart(kind, rest.kind))
  }

  /** The tokens of a text that begins on this line, each with its own line. */
  function TokensOf(l: Layout, line: nat): Toks {
    match l
    case Ending(gap, _) => End(line + Lines(GapText(gap)))
    case Laid(gap, kind, val, rest) =>
      var at := line + Lines(GapText(gap));
      Cons(Token(kind, val, at), TokensOf(rest, at))
  }

  // ---- The lexer passes over what stands between ------------------------

  lemma {:induction false} LinesOfBoth(a: string, b: string)
    ensures Lines(a + b) == Lines(a) + Lines(b)
    decreases |a|
  {
    if |a| == 0 { assert a + b == b; } else {
      assert (a + b)[1..] == a[1..] + b;
      LinesOfBoth(a[1..], b);
    }
  }

  lemma {:induction false} OneLineHasNone(s: string)
    requires OneLine(s)
    ensures Lines(s) == 0
    decreases |s|
  {
    if |s| > 0 { OneLineHasNone(s[1..]); }
  }

  lemma {:induction false} LineCommentEnds(s: string, r: string)
    requires OneLine(s) && (|r| > 0 ==> r[0] == '\n')
    ensures LineComment(s + r) == r
    decreases |s|
  {
    if |s| == 0 { assert s + r == r; } else {
      assert (s + r)[1..] == s[1..] + r;
      LineCommentEnds(s[1..], r);
    }
  }

  lemma {:induction false} BlockCommentEnds(s: string, r: string, line: nat)
    requires Unclosed(s)
    ensures BlockComment(s + "*/" + r, line) == (r, line + Lines(s))
    decreases |s|
  {
    var all := s + "*/" + r;
    if |s| == 0 {
      assert all[2..] == r;
    } else {
      assert all[1..] == s[1..] + "*/" + r;
      BlockCommentEnds(s[1..], r, line + Newline(s[0]));
    }
  }

  // Skip looks at the first two characters.
  lemma {:induction false} SkipSpace(c: char, r: string, line: nat)
    requires T.IsSpace(c)
    ensures Skip([c] + r, line) == Skip(r, line + Newline(c))
  {
    assert ([c] + r)[1..] == r;
  }

  lemma {:induction false} SkipLineNote(note: string, r: string, line: nat)
    requires OneLine(note) && (|r| > 0 ==> r[0] == '\n')
    ensures Skip("//" + note + r, line) == Skip(r, line)
  {
    var all := "//" + note + r;
    assert all[1..] == "/" + note + r && OneLine("/" + note);
    LineCommentEnds("/" + note, r);
  }

  lemma {:induction false} SkipBlockNote(note: string, r: string, line: nat)
    requires Unclosed(note)
    ensures Skip("/*" + note + "*/" + r, line) == Skip(r, line + Lines(note))
  {
    hide Lines;
    var all := "/*" + note + "*/" + r;
    assert all[2..] == note + "*/" + r;
    BlockCommentEnds(note, r, line);
  }

  lemma {:induction false} SameSkipSameToken(a: string, i: nat, b: string, j: nat)
    requires Skip(a, i) == Skip(b, j)
    ensures NextToken(a, i) == NextToken(b, j)
  {
    hide Skip;
  }

  lemma {:induction false} StrayIsPassed(c: char, r: string, line: nat)
    requires IsStray(c)
    ensures NextToken([c] + r, line) == NextToken(r, line)
  {
    assert ([c] + r)[1..] == r;
    NothingToSkip([c] + r, line);
    hide Skip;
  }

  lemma {:induction false} LinesOfBlank(b: Blank)
    requires BlankOk(b)
    ensures Lines(BlankText(b)) == match b
      case Space(c) => Newline(c)
      case LineNote(_) => 1
      case BlockNote(note) => Lines(note)
      case Stray(_) => 0
  {
    match b
    case LineNote(note) =>
      OneLineHasNone(note);
      OneLineHasNone("//");
      LinesOfBoth(note, "\n");
      LinesOfBoth("//", note + "\n");
    case BlockNote(note) =>
      OneLineHasNone("/*");
      OneLineHasNone("*/");
      LinesOfBoth(note, "*/");
      LinesOfBoth("/*", note + "*/");
    case _ =>
  }

  lemma {:induction false} BlankIsPassed(b: Blank, r: string, line: nat)
    requires BlankOk(b)
    ensures NextToken(BlankText(b) + r, line) == NextToken(r, line + Lines(BlankText(b)))
  {
    hide Skip, NextToken, Lines;
    LinesOfBlank(b);
    var all := BlankText(b) + r;
    match b
    case Space(c) =>
      SkipSpace(c, r, line);
      SameSkipSameToken(all, line, r, line + Newline(c));
    case LineNote(note) =>
      assert all == "//" + note + (['\n'] + r);
      SkipLineNote(note, ['\n'] + r, line);
      SkipSpace('\n', r, line);
      SameSkipSameToken(all, line, r, line + 1);
    case BlockNote(note) =>
      assert all == "/*" + note + "*/" + r;
      SkipBlockNote(note, r, line);
      SameSkipSameToken(all, line, r, line + Lines(note));
    case Stray(c) => StrayIsPassed(c, r, line);
  }

  lemma {:induction false} GapParts(g: Gap)
    requires GapOk(g)
    ensures |g| == 0 ==> |GapText(g)| == 0 && Lines(GapText(g)) == 0
    ensures |g| > 0 ==> BlankOk(g[0]) && GapOk(g[1..]) && GapText(g) == BlankText(g[0]) + GapText(g[1..])
  {
    hide BlankOk, BlankText;
  }

  /** White space, comments and stray characters are passed over, and only their
      line ends are noticed. */
  lemma {:induction false} GapIsPassed(g: Gap, r: string, line: nat)
    requires GapOk(g)
    ensures NextToken(GapText(g) + r, line) == NextToken(r, line + Lines(GapText(g)))
    decreases |g|
  {
    hide *;
    GapParts(g);
    if |g| == 0 {
      assert GapText(g) + r == r;
    } else {
      var b, more := g[0], g[1..];
      BlankIsPassed(b, GapText(more) + r, line);
      GapIsPassed(more, r, line + Lines(BlankText(b)));
      LinesOfBoth(BlankText(b), GapText(more));
      assert BlankText(b) + (GapText(more) + r) == BlankText(b) + GapText(more) + r;
    }
  }

  /** A colon or a slash by itself is passed over too, and an unclosed comment up
      to its last character. */
  lemma {:induction false} LoneMarksArePassed(r: string, s: string, c: char, line: nat)
    requires |r| > 0 ==> r[0] != ':' && r[0] != '/' && r[0] != '*'
    requires Unclosed(s + [c])
    ensures NextToken(":" + r, line) == NextToken("/" + r, line) == NextToken(r, line)
    ensures NextToken("/*" + s + [c], line) == NextToken([c], line + Lines(s))
  {
    var a, b, d := ":" + r, "/" + r, "/*" + s + [c];
    assert a[1..] == r && b[1..] == r;
    NothingToSkip(a, line);
    assert Skip(b, line) == (b, line);
    assert d[2..] == s + [c];
    UnclosedLeavesLast(s, c, line);
    assert Skip(d, line) == Skip([c], line + Lines(s));
    SameSkipSameToken(d, line, [c], line + Lines(s));
  }

  lemma {:induction false} UnclosedLeavesLast(s: string, c: char, line: nat)
    requires Unclosed(s + [c])
    ensures BlockComment(s + [c], line) == ([c], line + Lines(s))
    decreases |s|
  {
    var all := s + [c];
    if |s| == 0 { assert all == [c]; } else {
      assert all[1..] == s[1..] + [c];
      assert !(all[0] == '*' && all[1] == '/');
      UnclosedLeavesLast(s[1..], c, line + Newline(s[0]));
    }
  }

  // What follows a token in a layout does not run into it.
  lemma {:induction false} GapStops(g: Gap, r: string, k: TokKind)
    requires GapOk(g) && |g| > 0
    ensures Stops(k, GapText(g) + r)
  {
    assert BlankOk(g[0]);
    assert BlankText(g[0])[0] == (GapText(g) + r)[0];
  }

  lemma {:induction false} TokenStops(t: Token, r: string, k: TokKind)
    requires IsToken(t) && !MustPart(k, t.kind)
    ensures Stops(k, t.val + r)
  {
    if t.kind == Number { FirstDigit(t.val); }
  }

  lemma {:induction false} LayoutStops(l: Layout, k: TokKind)
    requires LayoutOk(l) && (l.Laid? && l.gap == [] ==> !MustPart(k, l.kind))
    ensures Stops(k, LayoutText(l))
  {
    hide IsToken, GapOk;
    match l
    case Ending(gap, note) =>
      if |gap| > 0 { GapStops(gap, NoteText(note), k); } else { assert LayoutText(l) == NoteText(note); }
    case Laid(gap, kind, val, rest) =>
      if |gap| > 0 { GapStops(gap, val + LayoutText(rest), k); } else {
        TokenStops(Token(kind, val, 1), LayoutText(rest), k);
        assert LayoutText(l) == val + LayoutText(rest);
      }
  }

  lemma {:induction false} NoteIsPassed(note: Option<string>, line: nat)
    requires note.Some? ==> OneLine(note.value)
    ensures NextToken(NoteText(note), line) == Lexed(Token(Eof, "", line), "", line)
  {
    if note.Some? {
      SkipLineNote(note.value, "", line);
      assert "//" + note.value + "" == NoteText(note);
    }
  }

  /** However a text is laid out, it lexes to its tokens, each with the line it
      begins on. */
  lemma {:induction false} LayoutLexes(l: Layout, line: nat)
    requires LayoutOk(l)
    ensures LexAll(LayoutText(l), line) == TokensOf(l, line)
    decreases l
  {
    hide NextToken, Lines, Stops, GapOk, IsToken;
    var at := line + Lines(GapText(l.gap));
    match l
    case Ending(gap, note) =>
      GapIsPassed(gap, NoteText(note), line);
      NoteIsPassed(note, at);
    case Laid(gap, kind, val, rest) =>
      var r := LayoutText(rest);
      GapIsPassed(gap, val + r, line);
      LayoutStops(rest, kind);
      SameButLine(kind, val, at);
      TokenLexes(Token(kind, val, at), r);
      LayoutLexes(rest, at);
      LexAllStep(LayoutText(l), line, Token(kind, val, at), r);
  }

  lemma SameButLine(kind: TokKind, val: string, line: nat)
    ensures IsToken(Token(kind, val, 1)) ==> IsToken(Token(kind, val, line)) && kind != Eof
  {}

  lemma LexAllStep(r: string, line: nat, t: Token, rest: string)
    requires NextToken(r, line) == Lexed(t, rest, t.line) && t.kind != Eof
    ensures LexAll(r, line) == Cons(t, LexAll(rest, t.line))
  {
    hide NextToken;
  }

  // ---- The parser does not see lines ------------------------------------

  /** The tokens, all on line 1. */
  function Flat(ts: Toks): Toks {
    match ts case End(_) => End(1) case Cons(t, rest) => Cons(t.(line := 1), Flat(rest))
  }

  // b is what a becomes when the lines are forgotten.
  predicate Alike<V(==)>(a: Parsed<V>, b: Parsed<V>) {
    if a.Ok? then b == Ok(a.value, Flat(a.rest)) else b.Err?
  }

  lemma FlatSteps(ts: Toks)
    ensures Drop(Flat(ts)) == Flat(Drop(ts)) && Peek(Flat(ts)) == Peek(ts).(line := 1)
  {}

  lemma {:induction false} ExpectFlat(ts: Toks, k: TokKind, desc: string)
    ensures Alike(Expect(ts, k, desc), Expect(Flat(ts), k, desc))
  {
    FlatSteps(ts);
  }

  lemma {:induction false} QualifiedFlat(ts: Toks, name: string)
    ensures Alike(ParseQualified(ts, name), ParseQualified(Flat(ts), name))
    decreases Len(ts)
  {
    FlatSteps(ts);
    FlatSteps(Drop(ts));
    if Is(ts, DoubleColon) && Peek(Drop(ts)).kind == Ident {
      QualifiedFlat(Drop(Drop(ts)), name + "::" + Peek(Drop(ts)).val);
    }
  }

  lemma {:induction false} TypeFlat(ts: Toks)
    ensures Alike(ParseType(ts), ParseType(Flat(ts)))
    decreases Len(ts)
  {
    hide Flat, Expect;
    var t, ts1 := Peek(ts), Drop(ts);
    FlatSteps(ts);
    FlatSteps(ts1);
    FlatSteps(Drop(ts1));
    if t.kind == Ident {
      ExpectFlat(Drop(Drop(ts1)), RAngle, ">");
      QualifiedFlat(ts1, t.val);
      SequenceFlat(ts1);
    }
  }

  lemma {:induction false} SequenceFlat(ts: Toks)
    ensures Alike(ParseSequence(ts), ParseSequence(Flat(ts)))
    decreases Len(ts), 0
  {
    hide Flat, Expect, ParseType;
    ExpectFlat(ts, LAngle, "<");
    if Expect(ts, LAngle, "<").Ok? {
      var ts2 := Expect(ts, LAngle, "<").rest;
      TypeFlat(ts2);
      if ParseType(ts2).Ok? {
        var ts3 := ParseType(ts2).rest;
        FlatSteps(ts3);
        FlatSteps(Drop(ts3));
        ExpectFlat(if Is(ts3, Comma) then Drop(Drop(ts3)) else ts3, RAngle, ">");
      }
    }
  }

  lemma {:induction false} BracesFlat(ts: Toks)
    ensures SkipBraces(Flat(ts)) == Flat(SkipBraces(ts))
    decreases Len(ts)
  {
    FlatSteps(ts);
    if !Is(ts, RBrace) && !Is(ts, Eof) { BracesFlat(Drop(ts)); }
  }

  lemma {:induction false} AnnotationsFlat(ts: Toks, isKey: bool)
    ensures var (k, rest) := ParseAnnotations(ts, isKey); ParseAnnotations(Flat(ts), isKey) == (k, Flat(rest))
    decreases Len(ts)
  {
    hide Flat, SkipBraces;
    FlatSteps(ts);
    FlatSteps(Drop(ts));
    if Is(ts, At) {
      var annot, ts1 := Peek(Drop(ts)), Drop(Drop(ts));
      FlatSteps(ts1);
      BracesFlat(ts1);
      AnnotationsFlat(if Is(ts1, LBrace) then SkipBraces(ts1) else ts1, isKey || annot.val == "key");
    }
  }

  lemma {:induction false} BoundFlat(ts: Toks, t: TypeSpec)
    ensures Alike(ParseBound(ts, t), ParseBound(Flat(ts), t))
  {
    hide Flat, Expect;
    FlatSteps(ts);
    FlatSteps(Drop(ts));
    ExpectFlat(Drop(Drop(ts)), RBracket, "]");
  }

  lemma {:induction false} FieldFlat(ts: Toks)
    ensures Alike(ParseField(ts), ParseField(Flat(ts)))
  {
    hide Flat, Expect, ParseType, ParseBound, ParseAnnotations;
    AnnotationsFlat(ts, false);
    var ts1 := ParseAnnotations(ts, false).1;
    TypeFlat(ts1);
    if ParseType(ts1).Ok? {
      var t, ts2 := ParseType(ts1).value, ParseType(ts1).rest;
      ExpectFlat(ts2, Ident, "field name");
      if Expect(ts2, Ident, "field name").Ok? {
        var ts3 := Expect(ts2, Ident, "field name").rest;
        BoundFlat(ts3, t);
        if ParseBound(ts3, t).Ok? { ExpectFlat(ParseBound(ts3, t).rest, Semi, ";"); }
      }
    }
  }

  lemma {:induction false} FieldsFlat(ts: Toks, fields: seq<Field>)
    ensures Alike(ParseFields(ts, fields), ParseFields(Flat(ts), fields))
    decreases Len(ts)
  {
    hide Flat, ParseField;
    FlatSteps(ts);
    if !Is(ts, RBrace) && !Is(ts, Eof) {
      FieldFlat(ts);
      if ParseField(ts).Ok? { FieldsFlat(ParseField(ts).rest, fields + [ParseField(ts).value]); }
    }
  }

  lemma {:induction false} EndFlat<V>(ts: Toks, value: V)
    ensures Alike(ParseEnd(ts, value), ParseEnd(Flat(ts), value))
  {
    hide Flat, Expect;
    ExpectFlat(ts, RBrace, "}");
    if Expect(ts, RBrace, "}").Ok? { ExpectFlat(Expect(ts, RBrace, "}").rest, Semi, ";"); }
  }

  lemma {:induction false} StructFlat(ts: Toks)
    ensures Alike(ParseStruct(ts), ParseStruct(Flat(ts)))
  {
    hide Flat, Expect, ParseFields, ParseEnd;
    ExpectFlat(ts, Ident, "struct name");
    if Expect(ts, Ident, "struct name").Ok? {
      var name, ts1 := Expect(ts, Ident, "struct name").value, Expect(ts, Ident, "struct name").rest;
      ExpectFlat(ts1, LBrace, "{");
      if Expect(ts1, LBrace, "{").Ok? {
        var ts2 := Expect(ts1, LBrace, "{").rest;
        FieldsFlat(ts2, []);
        if ParseFields(ts2, []).Ok? {
          EndFlat(ParseFields(ts2, []).rest, Struct(name, ParseFields(ts2, []).value));
        }
      }
    }
  }

  lemma {:induction false} ValuesFlat(ts: Toks, values: seq<string>)
    ensures var (vs, rest) := ParseValues(ts, values); ParseValues(Flat(ts), values) == (vs, Flat(rest))
    decreases Len(ts)
  {
    hide Flat;
    FlatSteps(ts);
    FlatSteps(Drop(ts));
    if !Is(ts, RBrace) && !Is(ts, Eof) {
      var cur, ts1 := Peek(ts), Drop(ts);
      ValuesFlat(if Is(ts1, Comma) then Drop(ts1) else ts1, if cur.kind == Ident then values + [cur.val] else values);
    }
  }

  lemma {:induction false} EnumFlat(ts: Toks)
    ensures Alike(ParseEnum(ts), ParseEnum(Flat(ts)))
  {
    hide Flat, Expect, ParseValues, ParseEnd;
    ExpectFlat(ts, Ident, "enum name");
    if Expect(ts, Ident, "enum name").Ok? {
      var name, ts1 := Expect(ts, Ident, "enum name").value, Expect(ts, Ident, "enum name").rest;
      ExpectFlat(ts1, LBrace, "{");
      if Expect(ts1, LBrace, "{").Ok? {
        var ts2 := Expect(ts1, LBrace, "{").rest;
        ValuesFlat(ts2, []);
        EndFlat(ParseValues(ts2, []).1, Enum(name, ParseValues(ts2, []).0));
      }
    }
  }

  lemma {:induction false} TypedefFlat(ts: Toks)
    ensures Alike(ParseTypedef(ts), ParseTypedef(Flat(ts)))
  {
    hide Flat, Expect, ParseType;
    TypeFlat(ts);
    if ParseType(ts).Ok? {
      var ts1 := ParseType(ts).rest;
      ExpectFlat(ts1, Ident, "typedef alias name");
      if Expect(ts1, Ident, "typedef alias name").Ok? {
        ExpectFlat(Expect(ts1, Ident, "typedef alias name").rest, Semi, ";");
      }
    }
  }

  lemma {:induction false} UnknownFlat(ts: Toks)
    ensures SkipUnknown(Flat(ts)) == Flat(SkipUnknown(ts))
    decreases Len(ts)
  {
    FlatSteps(ts);
    if !Is(ts, Eof) && !Is(ts, RBrace) && !Is(ts, Semi) { UnknownFlat(Drop(ts)); }
  }

  lemma {:induction false} ModuleFlat(ts: Toks, m: Module)
    ensures Alike(ParseModule(ts, m), ParseModule(Flat(ts), m))
    decreases Len(ts), 1
  {
    hide Flat, ParseNamedModule, ParseStruct, ParseEnum, ParseTypedef, SkipUnknown;
    FlatSteps(ts);
    var t, ts1 := Peek(ts), Drop(ts);
    if t.kind == Eof || t.kind == RBrace {
    } else if t.kind != Ident {
      ModuleFlat(ts1, m);
    } else if t.val == "module" {
      NamedFlat(ts1);
      match ParseNamedModule(ts1)
      case Err(_) =>
      case Ok(sub, ts2) => ModuleFlat(ts2, m.(modules := m.modules + [sub]));
    } else if t.val == "struct" {
      StructFlat(ts1);
      match ParseStruct(ts1)
      case Err(_) =>
      case Ok(s, ts2) => ModuleFlat(ts2, m.(structs := m.structs + [s]));
    } else if t.val == "enum" {
      EnumFlat(ts1);
      match ParseEnum(ts1)
      case Err(_) =>
      case Ok(x, ts2) => ModuleFlat(ts2, m.(enums := m.enums + [x]));
    } else if t.val == "typedef" {
      TypedefFlat(ts1);
      match ParseTypedef(ts1)
      case Err(_) =>
      case Ok(td, ts2) => ModuleFlat(ts2, m.(typedefs := m.typedefs + [td]));
    } else {
      UnknownFlat(ts1);
      ModuleFlat(SkipUnknown(ts1), m);
    }
  }

  lemma {:induction false} NamedFlat(ts: Toks)
    ensures Alike(ParseNamedModule(ts), ParseNamedModule(Flat(ts)))
    decreases Len(ts), 0
  {
    hide Flat, Expect, ParseModule;
    ExpectFlat(ts, Ident, "module name");
    if Expect(ts, Ident, "module name").Ok? {
      var ts1 := Expect(ts, Ident, "module name").rest;
      ExpectFlat(ts1, LBrace, "{");
      if Expect(ts1, LBrace, "{").Ok? {
        var ts2 := Expect(ts1, LBrace, "{").rest;
        ModuleFlat(ts2, EMPTY);
        if ParseModule(ts2, EMPTY).Ok? {
          var ts3 := ParseModule(ts2, EMPTY).rest;
          ExpectFlat(ts3, RBrace, "}");
          if Expect(ts3, RBrace, "}").Ok? { FlatSteps(Expect(ts3, RBrace, "}").rest); }
        }
      }
    }
  }

  // ---- What a text says does not depend on its layout -------------------

  /** Two texts with the same tokens give the same module, or both an error. */
  lemma {:induction false} OnlyTokensMatter(a: string, b: string)
    requires Flat(LexAll(a, 1)) == Flat(LexAll(b, 1))
    ensures ParseText(a).Success? || ParseText(b).Success? ==> ParseText(a) == ParseText(b)
  {
    hide Flat, LexAll, ParseModule;
    ModuleFlat(LexAll(a, 1), EMPTY);
    ModuleFlat(LexAll(b, 1), EMPTY);
  }

  lemma {:induction false} FlatWhenWritten(ts: Toks)
    requires ToksOk(ts)
    ensures Flat(ts) == ts
  {
    if ts.Cons? { FlatWhenWritten(ts.rest); }
  }

  /** However a module's tokens are laid out, with comments, line ends and white
      space wherever tokens may part, the text parses to the module. */
  lemma {:induction false} AnyLayoutParses(m: Module, l: Layout)
    requires ModuleWritable(m) && m.name == "" && LayoutOk(l)
    requires Flat(TokensOf(l, 1)) == WriteModule(m, End(1))
    ensures ParseText(LayoutText(l)) == Success(m)
  {
    hide Flat, LexAll, ParseText, TokensOf, LayoutText, LayoutOk, WriteModule, ModuleWritable, Text, ToksOk;
    var ts := WriteModule(m, End(1));
    LayoutLexes(l, 1);
    EndOk();
    ModuleOk(m, End(1));
    TextLexes(ts);
    FlatWhenWritten(ts);
    ParseInvertsRender(m);
    OnlyTokensMatter(LayoutText(l), Render(m));
  }

  lemma EndOk()
    ensures ToksOk(End(1))
  {}
}
