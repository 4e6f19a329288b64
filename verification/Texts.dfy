/// Strings, decimal numbers and JSON quoting (src/xtypes/xtypes.cpp).
/// Characters stand for the bytes of the source's strings.

module Texts {
  import opened Octets

  // Byte-wise lexicographic order, as std::string compares.
  predicate Less(a: string, b: string) {
    |b| > 0 && (|a| == 0 || a[0] < b[0] || (a[0] == b[0] && Less(a[1..], b[1..])))
  }

  lemma {:induction false} LessTotal(a: string, b: string)
    ensures a == b || Less(a, b) || Less(b, a)
    ensures !(Less(a, b) && Less(b, a)) && !Less(a, a)
    decreases |a|
  {
    if |a| > 0 && |b| > 0 {
      LessTotal(a[1..], b[1..]);
      assert a == [a[0]] + a[1..] && b == [b[0]] + b[1..];
    }
    if |a| > 0 { LessTotal(a[1..], a[1..]); }
  }

  lemma {:induction false} LessTransitive(a: string, b: string, c: string)
    requires Less(a, b) && Less(b, c)
    ensures Less(a, c)
    decreases |a|
  {
    if |a| > 0 && a[0] == b[0] == c[0] { LessTransitive(a[1..], b[1..], c[1..]); }
  }

  // ---- Decimal numbers --------------------------------------------------

  predicate IsDigit(c: char) { '0' <= c <= '9' }

  // isspace in the C locale
  predicate IsSpace(c: char) { c == ' ' || '\t' <= c <= '\r' }

  function DigitOf(d: nat): (c: char)
    requires d < 10
    ensures IsDigit(c) && c as int - '0' as int == d
  {
    '0' + d as char
  }

  function Decimal(n: nat): (s: string)
    ensures |s| > 0 && forall i :: 0 <= i < |s| ==> IsDigit(s[i])
  {
    if n < 10 then [DigitOf(n)] else Decimal(n / 10) + [DigitOf(n % 10)]
  }

  function NumberOf(s: string): int {
    if |s| == 0 then 0 else 10 * NumberOf(s[..|s| - 1]) + (s[|s| - 1] as int - '0' as int)
  }

  lemma {:induction false} DecimalReads(n: nat)
    ensures NumberOf(Decimal(n)) == n
  {
    var s := Decimal(n);
    if n >= 10 {
      DecimalReads(n / 10);
      assert s[..|s| - 1] == Decimal(n / 10);
    } else {
      assert |s[..|s| - 1]| == 0;
    }
  }

  // ---- Uniquely decodable texts -----------------------------------------

  lemma Cancel(p: string, a: string, b: string)
    requires p + a == p + b
    ensures a == b
  {
    assert a == (p + a)[|p|..] && b == (p + b)[|p|..];
  }

  predicate StartsOtherwise(s: string) { |s| > 0 && !IsDigit(s[0]) }

  lemma Junction(a: string, r: string, b: string, s: string)
    requires a + r == b + s && |r| > 0
    ensures |a| < |b| ==> r[0] == b[|a|]
  {
    if |a| < |b| { assert (a + r)[|a|] == r[0] && (b + s)[|a|] == b[|a|]; }
  }

  // A number ends where the digits end.
  lemma DecimalDecodes(n: nat, m: nat, r: string, s: string)
    requires Decimal(n) + r == Decimal(m) + s && StartsOtherwise(r) && StartsOtherwise(s)
    ensures n == m && r == s
  {
    var a, b := Decimal(n), Decimal(m);
    Junction(a, r, b, s);
    Junction(b, s, a, r);
    assert a == (a + r)[..|a|] && b == (b + s)[..|b|];
    DecimalReads(n);
    DecimalReads(m);
    Cancel(a, r, s);
  }

  // ---- JSON strings -----------------------------------------------------

  function HexDigit(d: nat): (c: char)
    requires d < 16
  {
    if d < 10 then '0' + d as char else 'a' + (d - 10) as char
  }

  // What one character is written as.
  function Escape(c: char): (e: string)
    ensures |e| > 0 && e[0] != '"'
  {
    if c == '"' then "\\\""
    else if c == '\\' then "\\\\"
    else if c == '\n' then "\\n"
    else if c == '\r' then "\\r"
    else if c == '\t' then "\\t"
    else if c == '<' then "\\u003c"
    else if c == '>' then "\\u003e"
    else if c == '&' then "\\u0026"
    else if c as int < 0x20 then "\\u00" + [HexDigit(c as int / 16), HexDigit(c as int % 16)]
    else [c]
  }

  function Escaped(s: string): string {
    if |s| == 0 then "" else Escape(s[0]) + Escaped(s[1..])
  }

  function Quoted(s: string): (r: string) { "\"" + Escaped(s) + "\"" }

  // An escape tells its character, however the text goes on.
  lemma EscapeDecodes(c: char, d: char, r: string, s: string)
    requires Escape(c) + r == Escape(d) + s
    ensures c == d && r == s
  {
    var a, b := Escape(c) + r, Escape(d) + s;
    assert a[0] == Escape(c)[0] && b[0] == Escape(d)[0];
    if a[0] == '\\' {
      assert a[1] == Escape(c)[1] && b[1] == Escape(d)[1];
      if a[1] == 'u' {
        assert a[4] == Escape(c)[4] && b[4] == Escape(d)[4];
        assert a[5] == Escape(c)[5] && b[5] == Escape(d)[5];
      }
    }
    assert c == d;
    Cancel(Escape(c), r, s);
  }

  // A quoted string after its opening quote, and what follows it.
  function Coded(s: string, r: string): (c: string)
    ensures |c| > 0
  {
    if |s| == 0 then ['"'] + r else Escape(s[0]) + Coded(s[1..], r)
  }

  lemma {:induction false} QuotedIsCoded(s: string, r: string)
    ensures Escaped(s) + "\"" + r == Coded(s, r)
    decreases |s|
  {
    hide Escape;
    if |s| > 0 {
      QuotedIsCoded(s[1..], r);
      assert Escaped(s) + "\"" + r == Escape(s[0]) + (Escaped(s[1..]) + "\"" + r);
    } else {
      assert Escaped(s) + "\"" + r == ['"'] + r;
    }
  }

  lemma CodedFirst(s: string, r: string)
    ensures Coded(s, r)[0] == '"' <==> |s| == 0
  {
    hide Escape;
  }

  lemma {:induction false} CodedDecodes(s: string, t: string, r: string, q: string)
    requires Coded(s, r) == Coded(t, q)
    ensures s == t && r == q
    decreases |s|
  {
    hide Escape;
    CodedFirst(s, r);
    CodedFirst(t, q);
    if |s| > 0 && |t| > 0 {
      EscapeDecodes(s[0], t[0], Coded(s[1..], r), Coded(t[1..], q));
      CodedDecodes(s[1..], t[1..], r, q);
      assert s == [s[0]] + s[1..] && t == [t[0]] + t[1..];
    } else if |s| == 0 && |t| == 0 {
      Cancel(['"'], r, q);
    }
  }

  /** A quoted string ends at its closing quote, and no two strings are written
      alike. */
  lemma QuotedDecodes(s: string, t: string, r: string, q: string)
    requires Quoted(s) + r == Quoted(t) + q
    ensures s == t && r == q
  {
    var x, y := Escaped(s) + "\"" + r, Escaped(t) + "\"" + q;
    assert Quoted(s) + r == "\"" + x && Quoted(t) + q == "\"" + y;
    Cancel("\"", x, y);
    QuotedIsCoded(s, r);
    QuotedIsCoded(t, q);
    CodedDecodes(s, t, r, q);
  }
}
