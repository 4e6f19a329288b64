/// The IDL lexer (src/idl/parser.cpp).

module Lexing {
  import opened Texts

  datatype TokKind =
    | Eof | Ident | Number | LBrace | RBrace | LAngle | RAngle | LBracket | RBracket
    | Semi | Comma | DoubleColon | At

  datatype Token = Token(kind: TokKind, val: string, line: nat)

  /** Everything the lexer will ever hand out: the tokens, then end-of-file at
      the last line for as long as it is asked. */
  datatype Toks = End(line: nat) | Cons(tok: Token, rest: Toks)

  predicate IsIdentStart(c: char) { 'a' <= c <= 'z' || 'A' <= c <= 'Z' || c == '_' }
  predicate IsIdentCont(c: char) { IsIdentStart(c) || IsDigit(c) }

  function Newline(c: char): nat { if c == '\n' then 1 else 0 }

  // ---- White space and comments -----------------------------------------

  function LineComment(r: string): (q: string)
    ensures |q| <= |r|
  {
    if |r| > 0 && r[0] != '\n' then LineComment(r[1..]) else r
  }

  // Up to and past the closing mark; an unclosed comment leaves its last
  // character behind.
  function BlockComment(r: string, line: nat): (q: (string, nat))
    ensures |q.0| <= |r|
  {
    if |r| < 2 then (r, line)
    else if r[0] == '*' && r[1] == '/' then (r[2..], line)
    else BlockComment(r[1..], line + Newline(r[0]))
  }

  function Skip(r: string, line: nat): (q: (string, nat))
    ensures |q.0| <= |r|
    decreases |r|
  {
    if |r| == 0 then (r, line)
    else if IsSpace(r[0]) then Skip(r[1..], line + Newline(r[0]))
    else if |r| > 1 && r[0] == '/' && r[1] == '/' then Skip(LineComment(r[1..]), line)
    else if |r| > 1 && r[0] == '/' && r[1] == '*' then
      var b := BlockComment(r[2..], line);
      Skip(b.0, b.1)
    else (r, line)
  }

  // ---- Tokens -----------------------------------------------------------

  datatype Lexed = Lexed(tok: Token, rest: string, line: nat)

  function Punctuation(c: char): TokKind {
    match c
    case '{' => LBrace case '}' => RBrace case '<' => LAngle case '>' => RAngle
    case '[' => LBracket case ']' => RBracket case ';' => Semi case ',' => Comma
    case '@' => At
    case _ => Eof
  }

  function DigitRun(r: string): (n: nat)
    ensures n <= |r|
  {
    if |r| > 0 && IsDigit(r[0]) then 1 + DigitRun(r[1..]) else 0
  }

  function IdentRun(r: string): (n: nat)
    ensures n <= |r|
  {
    if |r| > 0 && IsIdentCont(r[0]) then 1 + IdentRun(r[1..]) else 0
  }

  // The next token; characters that begin none are passed over.
  function NextToken(r: string, line: nat): (x: Lexed)
    ensures |x.rest| <= |r| && (x.tok.kind != Eof ==> |x.rest| < |r|)
    decreases |r|
  {
    var (q, l) := Skip(r, line);
    if |q| == 0 then Lexed(Token(Eof, "", l), q, l)
    else if Punctuation(q[0]) != Eof then Lexed(Token(Punctuation(q[0]), [q[0]], l), q[1..], l)
    else if q[0] == ':' then
      if |q| > 1 && q[1] == ':' then Lexed(Token(DoubleColon, "::", l), q[2..], l)
      else NextToken(q[1..], l)
    else if IsDigit(q[0]) then Lexed(Token(Number, q[..DigitRun(q)], l), q[DigitRun(q)..], l)
    else if IsIdentStart(q[0]) then Lexed(Token(Ident, q[..IdentRun(q)], l), q[IdentRun(q)..], l)
    else NextToken(q[1..], l)
  }

  function LexAll(r: string, line: nat): Toks
    decreases |r|
  {
    var x := NextToken(r, line);
    if x.tok.kind == Eof then End(x.tok.line) else Cons(x.tok, LexAll(x.rest, x.line))
  }

  // ---- Text that lexes to given tokens ----------------------------------

  // A token as the lexer hands it out, whatever its line.
  predicate IsToken(t: Token) {
    match t.kind
    case Eof => false
    case Ident => |t.val| > 0 && IsIdentStart(t.val[0]) && IdentRun(t.val) == |t.val|
    case Number => |t.val| > 0 && DigitRun(t.val) == |t.val|
    case DoubleColon => t.val == "::"
    case k => |t.val| == 1 && Punctuation(t.val[0]) == k
  }

  predicate TokOk(t: Token) { t.line == 1 && IsToken(t) }

  predicate ToksOk(ts: Toks) {
    match ts case End(l) => l == 1 case Cons(t, rest) => TokOk(t) && ToksOk(rest)
  }

  // The tokens, each followed by a space.
  function Text(ts: Toks): string {
    match ts case End(_) => "" case Cons(t, rest) => t.val + (" " + Text(rest))
  }

  // What may stand right behind a token without becoming part of it.
  predicate Stops(k: TokKind, r: string) {
    |r| > 0 ==> (k == Ident ==> !IsIdentCont(r[0])) && (k == Number ==> !IsDigit(r[0]))
  }

  lemma {:induction false} DigitRunStops(a: string, b: string)
    requires Stops(Number, b) && DigitRun(a) == |a|
    ensures DigitRun(a + b) == |a|
    decreases |a|
  {
    if |a| > 0 {
      DigitRunStops(a[1..], b);
      assert (a + b)[1..] == a[1..] + b;
    } else {
      assert a + b == b;
    }
  }

  lemma {:induction false} IdentRunStops(a: string, b: string)
    requires Stops(Ident, b) && IdentRun(a) == |a|
    ensures IdentRun(a + b) == |a|
    decreases |a|
  {
    if |a| > 0 {
      IdentRunStops(a[1..], b);
      assert (a + b)[1..] == a[1..] + b;
    } else {
      assert a + b == b;
    }
  }

  lemma {:induction false} NothingToSkip(r: string, line: nat)
    requires |r| > 0 && !IsSpace(r[0]) && r[0] != '/'
    ensures Skip(r, line) == (r, line)
  {}

  lemma {:induction false} RunLexes(t: Token, r: string)
    requires IsToken(t) && (t.kind == Ident || t.kind == Number) && Stops(t.kind, r)
    ensures NextToken(t.val + r, t.line) == Lexed(t, r, t.line)
  {
    hide Skip, DigitRun, IdentRun;
    var all := t.val + r;
    assert all[0] == t.val[0] && all[..|t.val|] == t.val && all[|t.val|..] == r;
    if t.kind == Ident { IdentRunStops(t.val, r); } else { DigitRunStops(t.val, r); FirstDigit(t.val); }
    NothingToSkip(all, t.line);
  }

  lemma {:induction false} FirstDigit(s: string)
    requires |s| > 0 && DigitRun(s) == |s|
    ensures IsDigit(s[0])
  {}

  // One token in front of what ends it.
  lemma {:induction false} TokenLexes(t: Token, r: string)
    requires IsToken(t) && Stops(t.kind, r)
    ensures NextToken(t.val + r, t.line) == Lexed(t, r, t.line)
  {
    hide Skip, DigitRun, IdentRun;
    if t.kind == Ident || t.kind == Number {
      RunLexes(t, r);
    } else {
      var all := t.val + r;
      assert all[0] == t.val[0] && all[|t.val|..] == r;
      NothingToSkip(all, t.line);
    }
  }

  lemma {:induction false} SpaceIsSkipped(r: string, line: nat)
    ensures NextToken(" " + r, line) == NextToken(r, line)
  {
    assert (" " + r)[1..] == r;
    assert Skip(" " + r, line) == Skip(r, line);
  }

  /** Text written token by token lexes back to its tokens. */
  lemma {:induction false} TextLexes(ts: Toks)
    requires ToksOk(ts)
    ensures LexAll(Text(ts), 1) == ts
  {
    match ts
    case End(_) =>
    case Cons(t, rest) =>
      TokenLexes(t, " " + Text(rest));
      TextLexes(rest);
      SpaceIsSkipped(Text(rest), 1);
  }

  // ---- The lexer --------------------------------------------------------

  class Lexer {
    const src: string
    var pos: nat
    var line: nat

    predicate Valid() reads this { pos <= |src| }

    function Rest(): string reads this requires Valid() { src[pos..] }

    constructor (src: string)
      ensures Valid() && this.src == src && Rest() == src && line == 1
    {
      this.src, pos, line := src, 0, 1;
    }

    method Advance()
      requires Valid() && pos < |src|
      modifies this
      ensures Valid() && pos == old(pos) + 1 && Rest() == old(Rest())[1..]
      ensures line == old(line) + Newline(old(Rest())[0])
    {
      if src[pos] == '\n' { line := line + 1; }
      pos := pos + 1;
    }

    method SkipBlanks()
      requires Valid()
      modifies this
      ensures Valid() && pos >= old(pos) && (Rest(), line) == Skip(old(Rest()), old(line))
    {
      while pos < |src|
        invariant Valid() && pos >= old(pos) && Skip(Rest(), line) == Skip(old(Rest()), old(line))
        decreases |src| - pos
      {
        ghost var r := Rest();
        var c := src[pos];
        if IsSpace(c) {
          Advance();
          continue;
        }
        if c == '/' && pos + 1 < |src| && src[pos + 1] == '/' {
          SkipLine();
          continue;
        }
        if c == '/' && pos + 1 < |src| && src[pos + 1] == '*' {
          pos := pos + 2;
          assert Rest() == r[2..];
          SkipBlock();
          continue;
        }
        break;
      }
    }

    method SkipLine()
      requires Valid() && pos < |src| && src[pos] != '\n'
      modifies this
      ensures Valid() && pos > old(pos) && line == old(line) && Rest() == LineComment(old(Rest())[1..])
    {
      assert old(Rest())[1..] == src[pos + 1..];
      while pos < |src| && src[pos] != '\n'
        invariant Valid() && pos >= old(pos) && line == old(line) && (pos == old(pos) ==> src[pos] != '\n')
        invariant LineComment(Rest()) == LineComment(old(Rest()))
      {
        assert Rest()[1..] == src[pos + 1..];
        pos := pos + 1;
      }
    }

    method SkipBlock()
      requires Valid()
      modifies this
      ensures Valid() && pos >= old(pos) && (Rest(), line) == BlockComment(old(Rest()), old(line))
    {
      while pos + 1 < |src|
        invariant Valid() && pos >= old(pos)
        invariant BlockComment(Rest(), line) == BlockComment(old(Rest()), old(line))
      {
        ghost var r := Rest();
        if src[pos] == '*' && src[pos + 1] == '/' {
          pos := pos + 2;
          assert Rest() == r[2..];
          return;
        }
        Advance();
      }
    }

    method Next() returns (t: Token)
      requires Valid()
      modifies this
      ensures Valid() && pos >= old(pos) && NextToken(old(Rest()), old(line)) == Lexed(t, Rest(), line)
      decreases |src| - pos
    {
      hide Skip;
      SkipBlanks();
      if pos >= |src| { return Token(Eof, "", line); }
      var c, ln := src[pos], line;
      ghost var q := Rest();
      if Punctuation(c) != Eof {
        pos := pos + 1;
        return Token(Punctuation(c), [c], ln);
      }
      if c == ':' {
        if pos + 1 < |src| && src[pos + 1] == ':' {
          pos := pos + 2;
          assert Rest() == q[2..];
          return Token(DoubleColon, "::", ln);
        }
        Advance();
        t := Next();
        return;
      }
      if IsDigit(c) {
        var n := Run(true);
        return Token(Number, src[pos - n..pos], ln);
      }
      if IsIdentStart(c) {
        var n := Run(false);
        return Token(Ident, src[pos - n..pos], ln);
      }
      assert c != '\n' by { SkipStops(old(Rest()), old(line)); }
      Advance();
      t := Next();
    }

    // Digits, or letters, digits and underscores.
    method Run(digits: bool) returns (n: nat)
      requires Valid()
      modifies this
      ensures Valid() && n == (if digits then DigitRun(old(Rest())) else IdentRun(old(Rest())))
      ensures pos == old(pos) + n && line == old(line)
      ensures n <= |old(Rest())| && Rest() == old(Rest())[n..] && src[pos - n..pos] == old(Rest())[..n]
    {
      n := 0;
      while pos < |src| && (if digits then IsDigit(src[pos]) else IsIdentCont(src[pos]))
        invariant Valid() && pos == old(pos) + n && line == old(line)
        invariant (if digits then DigitRun(old(Rest())) else IdentRun(old(Rest()))) ==
                  n + (if digits then DigitRun(Rest()) else IdentRun(Rest()))
      {
        assert Rest()[1..] == src[pos + 1..];
        pos := pos + 1;
        n := n + 1;
      }
    }
  }

  lemma {:induction false} SkipStops(r: string, line: nat)
    ensures var q := Skip(r, line).0; |q| > 0 ==> !IsSpace(q[0])
    decreases |r|
  {
    if |r| > 0 {
      if IsSpace(r[0]) { SkipStops(r[1..], line + Newline(r[0])); }
      else if |r| > 1 && r[0] == '/' && r[1] == '/' { SkipStops(LineComment(r[1..]), line); }
      else if |r| > 1 && r[0] == '/' && r[1] == '*' {
        var b := BlockComment(r[2..], line);
        SkipStops(b.0, b.1);
      }
    }
  }
}
