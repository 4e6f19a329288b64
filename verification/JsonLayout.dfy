/// How else a WAN frame's object may be written (src/bridge/wan/wan.cpp): with
/// white space, any escapes, other members, members twice and in any order.
/// Characters stand for bytes.

module JsonLayouts {
  import opened Octets
  import opened Texts
  import opened Wan
  import Base64

  /** A character of a JSON string: bare, behind a backslash, or \u and four hex
      digits. */
  datatype Letter = Raw(c: char) | Short(c: char) | Unicode(hex: string)

  /** What stands inside nested braces or brackets: characters, strings, and
      further nesting of the same kind. */
  datatype Piece = Other(c: char) | Text(letters: seq<Letter>) | Inner(pieces: seq<Piece>)

  datatype Value =
    | Str(letters: seq<Letter>)
    | Plain(text: string)            // a number or a word
    | Braced(pieces: seq<Piece>)
    | Bracketed(pieces: seq<Piece>)

  /** A member with the white space before each of its parts and after it. */
  datatype Entry = Entry(ws0: string, key: seq<Letter>, ws1: string, ws2: string, value: Value, ws3: string)

  // ---- As it is written -------------------------------------------------

  function LetterText(l: Letter): string {
    match l
    case Raw(c) => [c]
    case Short(c) => ['\\', c]
    case Unicode(hex) => ['\\', 'u'] + hex
  }

  function LettersText(ls: seq<Letter>): string {
    if |ls| == 0 then "" else LetterText(ls[0]) + LettersText(ls[1..])
  }

  // A string from behind its opening quote on.
  function StringText(ls: seq<Letter>, r: string): string { LettersText(ls) + (['"'] + r) }

  function PieceText(p: Piece, open: char, close: char): string {
    match p
    case Other(c) => [c]
    case Text(ls) => ['"'] + StringText(ls, "")
    case Inner(ps) => [open] + (PiecesText(ps, open, close) + [close])
  }

  function PiecesText(ps: seq<Piece>, open: char, close: char): string {
    if |ps| == 0 then "" else PieceText(ps[0], open, close) + PiecesText(ps[1..], open, close)
  }

  function ValueText(v: Value): string {
    match v
    case Str(ls) => ['"'] + StringText(ls, "")
    case Plain(text) => text
    case Braced(ps) => ['{'] + (PiecesText(ps, '{', '}') + ['}'])
    case Bracketed(ps) => ['['] + (PiecesText(ps, '[', ']') + [']'])
  }

  // A member, and what follows it.
  function EntryText(e: Entry, r: string): string {
    e.ws0 + (['"'] + StringText(e.key, e.ws1 + ([':'] + (e.ws2 + (ValueText(e.value) + (e.ws3 + r))))))
  }

  // At least one member, and what follows the object.
  function EntriesText(es: seq<Entry>, r: string): string
    requires |es| > 0
  {
    if |es| == 1 then EntryText(es[0], ['}'] + r) else EntryText(es[0], [','] + EntriesText(es[1..], r))
  }

  predicate AllSpace(s: string) { forall i :: 0 <= i < |s| ==> IsSpace(s[i]) }

  predicate IsHex(c: char) { '0' <= c <= '9' || 'a' <= c <= 'f' || 'A' <= c <= 'F' }

  predicate LetterOk(l: Letter) {
    match l
    case Raw(c) => c != '"' && c != '\\'
    case Short(c) => c == '"' || c == '\\' || c == '/' || c == 'b' || c == 'f' || c == 'n' || c == 'r' || c == 't'
    case Unicode(hex) => |hex| == 4 && forall i :: 0 <= i < 4 ==> IsHex(hex[i])
  }

  predicate LettersOk(ls: seq<Letter>) { forall i :: 0 <= i < |ls| ==> LetterOk(ls[i]) }

  predicate PieceOk(p: Piece, open: char, close: char) {
    match p
    case Other(c) => c != '"' && c != open && c != close
    case Text(ls) => LettersOk(ls)
    case Inner(ps) => PiecesOk(ps, open, close)
  }

  predicate PiecesOk(ps: seq<Piece>, open: char, close: char) {
    |ps| == 0 || (PieceOk(ps[0], open, close) && PiecesOk(ps[1..], open, close))
  }

  predicate IsPlain(c: char) { c != ',' && c != '}' && c != ']' && !IsSpace(c) }

  predicate ValueOk(v: Value) {
    match v
    case Str(ls) => LettersOk(ls)
    case Plain(text) =>
      && |text| > 0 && text[0] != '"' && text[0] != '{' && text[0] != '['
      && forall i :: 0 <= i < |text| ==> IsPlain(text[i])
    case Braced(ps) => PiecesOk(ps, '{', '}')
    case Bracketed(ps) => PiecesOk(ps, '[', ']')
  }

  predicate EntryOk(e: Entry) {
    AllSpace(e.ws0) && LettersOk(e.key) && AllSpace(e.ws1) && AllSpace(e.ws2) && ValueOk(e.value) && AllSpace(e.ws3)
  }

  predicate EntriesOk(es: seq<Entry>) { forall i :: 0 <= i < |es| ==> EntryOk(es[i]) }

  // ---- What it says -----------------------------------------------------

  function Digit(c: char): (d: int)
    ensures IsHex(c) ==> 0 <= d < 16
  {
    if '0' <= c <= '9' then c as int - '0' as int
    else if 'a' <= c <= 'f' then c as int - 'a' as int + 10
    else c as int - 'A' as int + 10
  }

  function CodeOf(hex: string): (n: nat)
    requires |hex| == 4 && forall i :: 0 <= i < 4 ==> IsHex(hex[i])
    ensures n < 0x1_0000
  {
    assert IsHex(hex[0]) && IsHex(hex[1]) && IsHex(hex[2]) && IsHex(hex[3]);
    4096 * Digit(hex[0]) + 256 * Digit(hex[1]) + 16 * Digit(hex[2]) + Digit(hex[3])
  }

  function LetterMeans(l: Letter): string
    requires LetterOk(l)
  {
    match l
    case Raw(c) => [c]
    case Short('n') => "\n" case Short('r') => "\r" case Short('t') => "\t"
    case Short('b') => [8 as char] case Short('f') => [12 as char]
    case Short(c) => [c]
    case Unicode(hex) => Utf8(CodeOf(hex))
  }

  function LettersMean(ls: seq<Letter>): string
    requires LettersOk(ls)
  {
    if |ls| == 0 then "" else LetterMeans(ls[0]) + LettersMean(ls[1..])
  }

  /** A code point below 2^16 in UTF-8: one byte below 0x80, two below 0x800,
      three from there on, six bits in each but the first. */
  lemma Utf8Tells(cp: nat)
    requires cp < 0x1_0000
    ensures var s := Utf8(cp);
      if cp < 0x80 then |s| == 1 && s[0] as int == cp
      else if cp < 0x800 then
        && |s| == 2 && 0xC0 <= s[0] as int < 0xE0 && 0x80 <= s[1] as int < 0xC0
        && cp == (s[0] as int - 0xC0) * 64 + (s[1] as int - 0x80)
      else
        && |s| == 3 && 0xE0 <= s[0] as int < 0xF0 && 0x80 <= s[1] as int < 0xC0 && 0x80 <= s[2] as int < 0xC0
        && cp == (s[0] as int - 0xE0) * 4096 + (s[1] as int - 0x80) * 64 + (s[2] as int - 0x80)
  {
    var a, b, c := cp / 64, cp / 64 / 64, cp / 0x1000;
    assert b == c && cp == a * 64 + cp % 64 && a == b * 64 + a % 64;
    if cp >= 0x800 { assert Utf8(cp)[1] as int == 0x80 + a % 64; }
  }

  // The value of the last member of this name.
  function LastValue(es: seq<Entry>, key: string): Option<Value>
    requires EntriesOk(es)
  {
    if |es| == 0 then None
    else
      var n := |es| - 1;
      if LettersMean(es[n].key) == key then Some(es[n].value) else LastValue(es[..n], key)
  }

  // A member that is not there, or null, is empty; another value must be a string.
  function StringOf(v: Option<Value>): Option<string>
    requires v.Some? ==> ValueOk(v.value)
  {
    match v
    case None => Some("")
    case Some(Str(ls)) => Some(LettersMean(ls))
    case Some(Plain(text)) => if text == "null" then Some("") else None
    case Some(_) => None
  }

  // ---- The reader reads it ----------------------------------------------

  lemma {:induction false} SpacePasses(ws: string, r: string)
    requires AllSpace(ws) && (|r| > 0 ==> !IsSpace(r[0]))
    ensures SkipWs(ws + r) == r
    decreases |ws|
  {
    if |ws| == 0 { assert ws + r == r; } else {
      assert (ws + r)[1..] == ws[1..] + r;
      SpacePasses(ws[1..], r);
    }
  }

  lemma {:induction false} HexIs(hex: string)
    requires |hex| == 4 && forall i :: 0 <= i < 4 ==> IsHex(hex[i])
    ensures HexNumber(hex, 0) == Some(CodeOf(hex))
  {
    var a, b, c := hex[1..], hex[2..], hex[3..];
    assert a[1..] == b && b[1..] == c && |c[1..]| == 0;
    forall i | 0 <= i < 4 ensures HexValue(hex[i]) == Digit(hex[i]) >= 0 {}
    assert HexNumber(c, 256 * Digit(hex[0]) + 16 * Digit(hex[1]) + Digit(hex[2])) == Some(CodeOf(hex));
    assert HexNumber(b, 16 * Digit(hex[0]) + Digit(hex[1])) == Some(CodeOf(hex));
  }

  lemma {:induction false} LetterReads(l: Letter, r: string, acc: string)
    requires LetterOk(l)
    ensures StringBody(LetterText(l) + r, acc) == StringBody(r, acc + LetterMeans(l))
  {
    var all := LetterText(l) + r;
    match l
    case Raw(c) => assert all[1..] == r;
    case Short(c) => assert all[2..] == r;
    case Unicode(hex) =>
      assert all[2..6] == hex && all[6..] == r;
      hide HexNumber, Utf8, CodeOf;
      HexIs(hex);
  }

  lemma {:induction false} LettersRead(ls: seq<Letter>, r: string, acc: string)
    requires LettersOk(ls)
    ensures StringBody(StringText(ls, r), acc) == Some((acc + LettersMean(ls), r))
    decreases |ls|
  {
    hide *;
    LettersParts(ls, r);
    if |ls| == 0 {
      QuoteEnds(r, acc);
      assert acc + LettersMean(ls) == acc;
    } else {
      var l, more := ls[0], ls[1..];
      LetterReads(l, StringText(more, r), acc);
      LettersRead(more, r, acc + LetterMeans(l));
      assert acc + LetterMeans(l) + LettersMean(more) == acc + LettersMean(ls);
    }
  }

  lemma {:induction false} LettersParts(ls: seq<Letter>, r: string)
    requires LettersOk(ls)
    ensures |ls| == 0 ==> StringText(ls, r) == ['"'] + r && |LettersMean(ls)| == 0
    ensures |ls| > 0 ==>
      && LetterOk(ls[0]) && LettersOk(ls[1..])
      && StringText(ls, r) == LetterText(ls[0]) + StringText(ls[1..], r)
      && LettersMean(ls) == LetterMeans(ls[0]) + LettersMean(ls[1..])
  {
    hide LetterOk, LetterText, LetterMeans;
    if |ls| > 0 {
      assert LetterText(ls[0]) + LettersText(ls[1..]) + (['"'] + r)
          == LetterText(ls[0]) + (LettersText(ls[1..]) + (['"'] + r));
    }
  }

  lemma QuoteEnds(r: string, acc: string)
    ensures StringBody(['"'] + r, acc) == Some((acc, r))
  {
    assert (['"'] + r)[1..] == r;
  }

  lemma {:induction false} StringReads(ls: seq<Letter>, r: string)
    requires LettersOk(ls)
    ensures ReadString(['"'] + StringText(ls, r)) == Some((LettersMean(ls), r))
  {
    hide StringBody;
    LettersRead(ls, r, "");
    assert (['"'] + StringText(ls, r))[1..] == StringText(ls, r);
    assert "" + LettersMean(ls) == LettersMean(ls);
  }

  /** What the writer puts for a character is a way of writing it: a short escape
      for quote, backslash and the line and tab marks, \u for other control
      characters and for less, greater and ampersand, and the rest bare. */
  lemma {:induction false} EscapeIsLetter(c: char) returns (l: Letter)
    ensures LetterOk(l) && LetterText(l) == Escape(c) && LetterMeans(l) == [c]
    ensures l.Short? <==> c == '"' || c == '\\' || c == '\n' || c == '\r' || c == '\t'
    ensures l.Unicode? <==> c == '<' || c == '>' || c == '&' || (c as int < 0x20 && c != '\n' && c != '\r' && c != '\t')
  {
    var e := Escape(c);
    if c == '"' || c == '\\' || c == '\n' || c == '\r' || c == '\t' {
      l := Short(e[1]);
    } else if c == '<' || c == '>' || c == '&' || c as int < 0x20 {
      HexOfEscape(c);
      l := Unicode(e[2..]);
      assert e == ['\\', 'u'] + e[2..];
    } else {
      l := Raw(c);
    }
  }

  lemma HexOfEscape(c: char)
    requires c == '<' || c == '>' || c == '&' || (c as int < 0x20 && c != '\n' && c != '\r' && c != '\t')
    ensures var e, n := Escape(c), c as int;
      && |e| == 6 && e[0] == '\\' && e[1] == 'u'
      && e[2..] == ['0', '0', HexDigit(n / 16), HexDigit(n % 16)]
      && (forall i :: 0 <= i < 4 ==> IsHex(e[2..][i])) && CodeOf(e[2..]) == n && Utf8(n) == [c]
  {
    var n := c as int;
    HexReads(n / 16);
    HexReads(n % 16);
  }

  // Inside nesting, strings are passed over.
  lemma {:induction false} LetterPasses(l: Letter, r: string, open: char, close: char, depth: int)
    requires LetterOk(l)
    ensures Nested(LetterText(l) + r, open, close, depth, true) == Nested(r, open, close, depth, true)
  {
    var all := LetterText(l) + r;
    match l
    case Raw(c) => assert all[1..] == r;
    case Short(c) => assert all[2..] == r;
    case Unicode(hex) =>
      assert all[2..] == hex + r;
      HexPasses(hex, r, open, close, depth);
  }

  lemma {:induction false} HexPasses(hex: string, r: string, open: char, close: char, depth: int)
    requires forall i :: 0 <= i < |hex| ==> IsHex(hex[i])
    ensures Nested(hex + r, open, close, depth, true) == Nested(r, open, close, depth, true)
    decreases |hex|
  {
    if |hex| == 0 { assert hex + r == r; } else {
      assert (hex + r)[1..] == hex[1..] + r;
      HexPasses(hex[1..], r, open, close, depth);
    }
  }

  lemma {:induction false} LettersPass(ls: seq<Letter>, r: string, open: char, close: char, depth: int)
    requires LettersOk(ls)
    ensures Nested(StringText(ls, r), open, close, depth, true) == Nested(r, open, close, depth, false)
    decreases |ls|
  {
    if |ls| == 0 {
      assert StringText(ls, r) == ['"'] + r && (['"'] + r)[1..] == r;
    } else {
      var l, more := ls[0], ls[1..];
      hide *;
      LettersParts(ls, r);
      LetterPasses(l, StringText(more, r), open, close, depth);
      LettersPass(more, r, open, close, depth);
    }
  }

  predicate Brackets(open: char, close: char) { (open == '{' && close == '}') || (open == '[' && close == ']') }

  lemma {:induction false} PiecePasses(p: Piece, r: string, open: char, close: char, depth: int)
    requires PieceOk(p, open, close) && Brackets(open, close) && depth > 0
    ensures Nested(PieceText(p, open, close) + r, open, close, depth, false) == Nested(r, open, close, depth, false)
    decreases p, 0
  {
    hide StringText, LettersOk, PiecesOk, PiecesText;
    match p
    case Other(c) => assert ([c] + r)[1..] == r;
    case Text(ls) =>
      StringOn(ls, r);
      assert (['"'] + StringText(ls, r))[1..] == StringText(ls, r);
      LettersPass(ls, r, open, close, depth);
    case Inner(ps) =>
      var inner := PiecesText(ps, open, close) + ([close] + r);
      assert PieceText(p, open, close) + r == [open] + inner;
      assert ([open] + inner)[1..] == inner && ([close] + r)[1..] == r;
      PiecesPass(ps, [close] + r, open, close, depth + 1);
  }

  lemma {:induction false} PiecesPass(ps: seq<Piece>, r: string, open: char, close: char, depth: int)
    requires PiecesOk(ps, open, close) && Brackets(open, close) && depth > 0
    ensures Nested(PiecesText(ps, open, close) + r, open, close, depth, false) == Nested(r, open, close, depth, false)
    decreases ps, 1
  {
    if |ps| == 0 {
      assert PiecesText(ps, open, close) + r == r;
    } else {
      hide Nested, PieceText, PieceOk, Brackets;
      var more := PiecesText(ps[1..], open, close) + r;
      PiecePasses(ps[0], more, open, close, depth);
      PiecesPass(ps[1..], r, open, close, depth);
      assert PiecesText(ps, open, close) + r == PieceText(ps[0], open, close) + more;
    }
  }

  lemma StringOn(ls: seq<Letter>, r: string)
    ensures ['"'] + StringText(ls, "") + r == ['"'] + StringText(ls, r)
  {
    hide LettersText;
  }

  lemma {:induction false} PlainPasses(text: string, r: string)
    requires (forall i :: 0 <= i < |text| ==> IsPlain(text[i])) && |r| > 0 && !IsPlain(r[0])
    ensures Bare(text + r) == r
    decreases |text|
  {
    if |text| == 0 { assert text + r == r; } else {
      assert (text + r)[1..] == text[1..] + r;
      PlainPasses(text[1..], r);
    }
  }

  lemma {:induction false} NestedPasses(ps: seq<Piece>, r: string, open: char, close: char)
    requires PiecesOk(ps, open, close) && Brackets(open, close)
    ensures Nested([open] + (PiecesText(ps, open, close) + [close]) + r, open, close, 0, false) == Some(r)
  {
    hide PiecesText, PiecesOk;
    var inner := PiecesText(ps, open, close) + ([close] + r);
    assert [open] + (PiecesText(ps, open, close) + [close]) + r == [open] + inner;
    assert ([open] + inner)[1..] == inner && ([close] + r)[1..] == r;
    PiecesPass(ps, [close] + r, open, close, 1);
  }

  /** A value ends where it ends, and begins with no white space. */
  lemma {:induction false} ValuePasses(v: Value, r: string)
    requires ValueOk(v) && |r| > 0 && !IsPlain(r[0])
    ensures AfterValue(ValueText(v) + r) == Some(r) && |ValueText(v)| > 0 && !IsSpace(ValueText(v)[0])
  {
    hide ReadString, Nested, Bare, StringText, PiecesText, LettersOk, PiecesOk;
    match v
    case Str(ls) => StringReads(ls, r); StringOn(ls, r);
    case Plain(text) =>
      PlainPasses(text, r);
      assert |text + r| > |r| && (text + r)[0] == text[0] && IsPlain(text[0]);
    case Braced(ps) => NestedPasses(ps, r, '{', '}');
    case Bracketed(ps) => NestedPasses(ps, r, '[', ']');
  }

  lemma {:induction false} EntryReads(e: Entry, r: string)
    requires EntryOk(e) && |r| > 0 && (r[0] == ',' || r[0] == '}')
    ensures MemberAt(EntryText(e, r)) == Some((LettersMean(e.key), ValueText(e.value), e.ws3 + r))
    ensures SkipWs(e.ws3 + r) == r
  {
    hide ReadString, AfterValue, StringText, LettersOk, ValueOk, ValueText, SkipWs;
    var r4 := e.ws3 + r;
    var r3 := ValueText(e.value) + r4;
    var r2 := [':'] + (e.ws2 + r3);
    var r0 := ['"'] + StringText(e.key, e.ws1 + r2);
    EndsValue(e.ws3, r);
    ValuePasses(e.value, r4);
    SpacePasses(e.ws0, r0);
    StringReads(e.key, e.ws1 + r2);
    SpacePasses(e.ws1, r2);
    assert r2[1..] == e.ws2 + r3;
    SpacePasses(e.ws2, r3);
    SpacePasses(e.ws3, r);
    assert r3[..|r3| - |r4|] == ValueText(e.value);
  }

  lemma EndsValue(ws: string, r: string)
    requires AllSpace(ws) && |r| > 0 && (r[0] == ',' || r[0] == '}')
    ensures |ws + r| > 0 && !IsPlain((ws + r)[0])
  {}

  // The members, a later one replacing an earlier one.
  function Fields(es: seq<Entry>, m: map<string, string>): map<string, string>
    requires EntriesOk(es)
  {
    if |es| == 0 then m else Fields(es[1..], m[LettersMean(es[0].key) := ValueText(es[0].value)])
  }

  lemma {:induction false} EntriesRead(es: seq<Entry>, r: string, m: map<string, string>)
    requires |es| > 0 && EntriesOk(es)
    ensures Members(EntriesText(es, r), m) == Some(Fields(es, m))
    decreases |es|
  {
    hide MemberAt, EntryText, LettersMean, ValueText, SkipWs, LettersOk, ValueOk, AllSpace;
    assert EntryOk(es[0]) && EntriesOk(es[1..]);
    var on := if |es| == 1 then ['}'] + r else [','] + EntriesText(es[1..], r);
    EntryReads(es[0], on);
    MemberShrinks(EntriesText(es, r));
    if |es| > 1 {
      assert on[1..] == EntriesText(es[1..], r);
      EntriesRead(es[1..], r, m[LettersMean(es[0].key) := ValueText(es[0].value)]);
    } else {
      assert |es[1..]| == 0;
    }
  }

  /** An object with these members, after white space, whatever follows it. */
  function ObjectText(ws: string, es: seq<Entry>, ws1: string, r: string): string {
    ws + (['{'] + if |es| == 0 then ws1 + (['}'] + r) else EntriesText(es, r))
  }

  lemma {:induction false} StartsWithQuote(es: seq<Entry>, r: string)
    requires |es| > 0 && EntryOk(es[0])
    ensures var q := SkipWs(EntriesText(es, r)); |q| > 0 && q[0] == '"' && SkipWs(q) == q
  {
    hide StringText, LettersOk, ValueOk, ValueText, SkipWs;
    var on := if |es| == 1 then ['}'] + r else [','] + EntriesText(es[1..], r);
    var e := es[0];
    var q := ['"'] + StringText(e.key, e.ws1 + ([':'] + (e.ws2 + (ValueText(e.value) + (e.ws3 + on)))));
    SpacePasses(e.ws0, q);
    SpacePasses("", q);
    assert "" + q == q;
  }

  lemma SameMembers(a: string, b: string, m: map<string, string>)
    requires SkipWs(a) == SkipWs(b)
    ensures MemberAt(a) == MemberAt(b) && Members(a, m) == Members(b, m)
  {
    hide ReadString, AfterValue, SkipWs;
  }

  lemma {:induction false} ObjectReadsAnyhow(ws: string, es: seq<Entry>, ws1: string, r: string)
    requires AllSpace(ws) && AllSpace(ws1) && EntriesOk(es)
    ensures Object(ObjectText(ws, es, ws1, r)) == Some(Fields(es, map[]))
  {
    hide Members, EntriesText, SkipWs, EntryOk, Fields;
    var inside := if |es| == 0 then ws1 + (['}'] + r) else EntriesText(es, r);
    SpacePasses(ws, ['{'] + inside);
    assert (['{'] + inside)[1..] == inside;
    if |es| == 0 {
      SpacePasses(ws1, ['}'] + r);
      NoFields(es);
    } else {
      assert EntryOk(es[0]);
      StartsWithQuote(es, r);
      SameMembers(SkipWs(inside), inside, map[]);
      EntriesRead(es, r, map[]);
    }
  }

  lemma NoFields(es: seq<Entry>)
    requires |es| == 0
    ensures Fields(es, map[]) == map[]
  {}

  lemma {:induction false} FieldsLast(es: seq<Entry>, m: map<string, string>, key: string)
    requires EntriesOk(es)
    ensures var f, v := Fields(es, m), LastValue(es, key);
      if v.Some? then key in f && f[key] == ValueText(v.value) && ValueOk(v.value)
      else (key in f <==> key in m) && (key in m ==> f[key] == m[key])
    decreases |es|
  {
    hide LettersMean, ValueText, ValueOk, LettersOk;
    if |es| > 0 {
      var n := |es| - 1;
      assert EntryOk(es[n]) && EntriesOk(es[..n]);
      FieldsAppend(es, m);
      FieldsLast(es[..n], m, key);
    }
  }

  lemma {:induction false} FieldsAppend(es: seq<Entry>, m: map<string, string>)
    requires EntriesOk(es) && |es| > 0
    ensures var n := |es| - 1;
      EntryOk(es[n]) && EntriesOk(es[..n])
      && Fields(es, m) == Fields(es[..n], m)[LettersMean(es[n].key) := ValueText(es[n].value)]
    decreases |es|
  {
    hide LettersMean, ValueText, ValueOk, LettersOk;
    if |es| > 1 {
      FieldsAppend(es[1..], m[LettersMean(es[0].key) := ValueText(es[0].value)]);
      assert es[1..][..|es| - 2] == es[..|es| - 1][1..];
    } else {
      assert |es[1..]| == 0 && |es[..0]| == 0;
    }
  }

  // What a member's text reads as.
  lemma {:induction false} ValueReads(v: Value)
    requires ValueOk(v)
    ensures var t := ValueText(v);
      && (t == "null" <==> v == Plain("null"))
      && (if v.Str? then ReadString(t) == Some((LettersMean(v.letters), "")) else ReadString(t).None?)
  {
    hide StringBody, StringText, PiecesText, LettersOk, PiecesOk;
    assert ValueText(v)[0] == match v
      case Str(_) => '"' case Plain(text) => text[0] case Braced(_) => '{' case Bracketed(_) => '[';
    assert "null"[0] == 'n';
    if v.Str? { StringReads(v.letters, ""); }
  }

  /** Whatever else its object holds, in whatever order and writing, a frame's
      topic and payload are the strings of the last "t" and "p". */
  lemma {:induction false} FrameReadsAnyhow(ws: string, es: seq<Entry>, ws1: string, r: string)
    requires AllSpace(ws) && AllSpace(ws1) && EntriesOk(es)
    ensures LastValue(es, "t").Some? ==> ValueOk(LastValue(es, "t").value)
    ensures LastValue(es, "p").Some? ==> ValueOk(LastValue(es, "p").value)
    ensures FromJson(ObjectText(ws, es, ws1, r)) ==
      match (StringOf(LastValue(es, "t")), StringOf(LastValue(es, "p")))
      case (Some(topic), Some(text)) =>
        (match Base64.Decode(text) case None => None case Some(payload) => Some(Frame(topic, payload)))
      case _ => None
  {
    hide Object, ObjectText, Fields, LastValue, ReadString, ValueText, ValueOk, LettersMean, Base64.Decode, EntriesOk;
    ObjectReadsAnyhow(ws, es, ws1, r);
    FieldsLast(es, map[], "t");
    FieldsLast(es, map[], "p");
    EmptyDecodes();
    if LastValue(es, "t").Some? { ValueReads(LastValue(es, "t").value); }
    if LastValue(es, "p").Some? { ValueReads(LastValue(es, "p").value); }
  }

  lemma EmptyDecodes()
    ensures Base64.Decode("") == Some([])
  {}
}
