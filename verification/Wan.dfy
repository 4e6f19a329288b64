/// The WAN bridge's frames (src/bridge/wan/wan.cpp): JSON with an escaped topic
/// and a base64 payload, behind a four-byte length.  Characters stand for bytes.

module Wan {
  import opened Octets
  import opened Texts
  import Base64

  /** topic is "t", payload is "p". */
  datatype Frame = Frame(topic: string, payload: Bytes)

  function ToJson(f: Frame): string {
    "{\"t\":" + (Quoted(f.topic) + (",\"p\":\"" + (Base64.Encode(f.payload) + "\"}")))
  }

  // ---- The JSON reader, on what is left of the text ---------------------

  function SkipWs(r: string): string {
    if |r| > 0 && IsSpace(r[0]) then SkipWs(r[1..]) else r
  }

  function HexValue(c: char): int {
    if '0' <= c <= '9' then c as int - '0' as int
    else if 'a' <= c <= 'f' then c as int - 'a' as int + 10
    else if 'A' <= c <= 'F' then c as int - 'A' as int + 10
    else -1
  }

  function HexNumber(s: string, acc: nat): Option<nat> {
    if |s| == 0 then Some(acc)
    else if HexValue(s[0]) < 0 then None
    else HexNumber(s[1..], 16 * acc + HexValue(s[0]))
  }

  function Pow16(n: nat): nat { if n == 0 then 1 else 16 * Pow16(n - 1) }

  // Four hex digits stay below 2^16.
  lemma {:induction false} HexBound(s: string, acc: nat)
    requires |s| <= 4 && acc < Pow16(4 - |s|)
    ensures HexNumber(s, acc).Some? ==> HexNumber(s, acc).value < 0x1_0000
    decreases |s|
  {
    if |s| == 0 {
      assert Pow16(4) == 0x1_0000;
    } else if HexValue(s[0]) >= 0 {
      HexBound(s[1..], 16 * acc + HexValue(s[0]));
    }
  }

  // The bytes of a code point below 2^16.
  function Utf8(cp: nat): string
    requires cp < 0x1_0000
  {
    if cp < 0x80 then [cp as char]
    else if cp < 0x800 then [(0xC0 + cp / 64) as char, (0x80 + cp % 64) as char]
    else [(0xE0 + cp / 0x1000) as char, (0x80 + cp / 64 % 64) as char, (0x80 + cp % 64) as char]
  }

  // What a backslash and one letter stand for.
  function Simple(c: char): Option<char> {
    match c
    case '"' => Some('"') case '\\' => Some('\\') case '/' => Some('/')
    case 'n' => Some('\n') case 'r' => Some('\r') case 't' => Some('\t')
    case 'b' => Some(8 as char) case 'f' => Some(12 as char)
    case _ => None
  }

  // A string after its opening quote: its value and what follows it.
  function StringBody(r: string, acc: string): Option<(string, string)>
    decreases |r|
  {
    if |r| == 0 then None
    else if r[0] == '"' then Some((acc, r[1..]))
    else if r[0] != '\\' then StringBody(r[1..], acc + [r[0]])
    else if |r| < 2 then None
    else if r[1] == 'u' then
      if |r| < 6 then None
      else
        (HexBound(r[2..6], 0);
         match HexNumber(r[2..6], 0)
         case None => None
         case Some(cp) => StringBody(r[6..], acc + Utf8(cp)))
    else
      match Simple(r[1])
      case None => None
      case Some(c) => StringBody(r[2..], acc + [c])
  }

  function ReadString(r: string): Option<(string, string)> {
    if |r| > 0 && r[0] == '"' then StringBody(r[1..], "") else None
  }

  // After a nested object or array, strings skipped over.
  function Nested(r: string, open: char, close: char, depth: int, inStr: bool): Option<string>
    decreases |r|
  {
    if |r| == 0 then None
    else if inStr then
      if r[0] == '\\' then (if |r| < 2 then None else Nested(r[2..], open, close, depth, true))
      else Nested(r[1..], open, close, depth, r[0] != '"')
    else if r[0] == '"' then Nested(r[1..], open, close, depth, true)
    else if r[0] == open then Nested(r[1..], open, close, depth + 1, false)
    else if r[0] == close then (if depth == 1 then Some(r[1..]) else Nested(r[1..], open, close, depth - 1, false))
    else Nested(r[1..], open, close, depth, false)
  }

  function Bare(r: string): string {
    if |r| > 0 && r[0] != ',' && r[0] != '}' && r[0] != ']' && !IsSpace(r[0]) then Bare(r[1..]) else r
  }

  // What follows the value at the front of r.
  function AfterValue(r: string): Option<string> {
    if |r| == 0 then None
    else if r[0] == '"' then (match ReadString(r) case None => None case Some((_, rest)) => Some(rest))
    else if r[0] == '{' then Nested(r, '{', '}', 0, false)
    else if r[0] == '[' then Nested(r, '[', ']', 0, false)
    else if |Bare(r)| == |r| then None
    else Some(Bare(r))
  }

  // One member: its key, its value's text, and what follows.
  function MemberAt(r: string): Option<(string, string, string)> {
    match ReadString(SkipWs(r))
    case None => None
    case Some((key, r1)) =>
      var r2 := SkipWs(r1);
      if |r2| == 0 || r2[0] != ':' then None
      else
        var r3 := SkipWs(r2[1..]);
        match AfterValue(r3)
        case None => None
        case Some(r4) =>
          LengthsShrink(r, r1, r3, r4);
          Some((key, r3[..|r3| - |r4|], r4))
  }

  // The members of an object from the first key on; a later one replaces an
  // earlier one of the same name.
  function Members(r: string, fields: map<string, string>): Option<map<string, string>>
    decreases |r|
  {
    match MemberAt(r)
    case None => None
    case Some((key, raw, r4)) =>
      MemberShrinks(r);
      var r5 := SkipWs(r4);
      if |r5| == 0 then None
      else if r5[0] == ',' then Members(r5[1..], fields[key := raw])
      else if r5[0] == '}' then Some(fields[key := raw])
      else None
  }

  lemma {:induction false} MemberShrinks(r: string)
    ensures MemberAt(r).Some? ==> |MemberAt(r).value.2| < |r| && |SkipWs(MemberAt(r).value.2)| <= |MemberAt(r).value.2|
  {
    hide ReadString, AfterValue, SkipWs;
    match ReadString(SkipWs(r))
    case None =>
    case Some((key, r1)) =>
      var r2 := SkipWs(r1);
      if |r2| > 0 && r2[0] == ':' && AfterValue(SkipWs(r2[1..])).Some? {
        LengthsShrink(r, r1, SkipWs(r2[1..]), AfterValue(SkipWs(r2[1..])).value);
      }
  }

  function Object(text: string): Option<map<string, string>> {
    var r := SkipWs(text);
    if |r| == 0 || r[0] != '{' then None
    else
      var r1 := SkipWs(r[1..]);
      if |r1| > 0 && r1[0] == '}' then Some(map[]) else Members(r1, map[])
  }

  lemma {:induction false} WsShrinks(r: string)
    ensures |SkipWs(r)| <= |r|
    decreases |r|
  {
    if |r| > 0 { WsShrinks(r[1..]); }
  }

  lemma {:induction false} BodyShrinks(r: string, acc: string)
    ensures StringBody(r, acc).Some? ==> |StringBody(r, acc).value.1| < |r|
    decreases |r|
  {
    hide Utf8, Simple, HexNumber;
    if |r| > 0 && r[0] != '"' {
      if r[0] != '\\' {
        BodyShrinks(r[1..], acc + [r[0]]);
      } else if |r| >= 2 {
        if r[1] == 'u' {
          if |r| >= 6 {
            HexBound(r[2..6], 0);
            if HexNumber(r[2..6], 0).Some? { BodyShrinks(r[6..], acc + Utf8(HexNumber(r[2..6], 0).value)); }
          }
        } else if Simple(r[1]).Some? {
          BodyShrinks(r[2..], acc + [Simple(r[1]).value]);
        }
      }
    }
  }

  lemma {:induction false} NestedShrinks(r: string, open: char, close: char, depth: int, inStr: bool)
    ensures Nested(r, open, close, depth, inStr).Some? ==> |Nested(r, open, close, depth, inStr).value| < |r|
    decreases |r|
  {
    if |r| > 0 {
      NestedShrinks(r[1..], open, close, depth, inStr && r[0] != '"');
      NestedShrinks(r[1..], open, close, depth, true);
      NestedShrinks(r[1..], open, close, depth, false);
      NestedShrinks(r[1..], open, close, depth + 1, false);
      NestedShrinks(r[1..], open, close, depth - 1, false);
      if |r| >= 2 { NestedShrinks(r[2..], open, close, depth, true); }
    }
  }

  lemma {:induction false} BareShrinks(r: string)
    ensures |Bare(r)| <= |r|
    decreases |r|
  {
    if |r| > 0 { BareShrinks(r[1..]); }
  }

  lemma {:induction false} ValueShrinks(r: string)
    ensures AfterValue(r).Some? ==> |AfterValue(r).value| < |r|
  {
    hide StringBody, Nested, Bare;
    if |r| > 0 {
      BodyShrinks(r[1..], "");
      NestedShrinks(r, '{', '}', 0, false);
      NestedShrinks(r, '[', ']', 0, false);
      BareShrinks(r);
    }
  }

  lemma {:induction false} ReadShrinks(r: string)
    ensures ReadString(r).Some? ==> |ReadString(r).value.1| < |r|
  {
    if |r| > 0 { BodyShrinks(r[1..], ""); }
  }

  lemma {:induction false} LengthsShrink(r: string, r1: string, r3: string, r4: string)
    requires ReadString(SkipWs(r)).Some? && ReadString(SkipWs(r)).value.1 == r1
    requires |SkipWs(r1)| > 0 && r3 == SkipWs(SkipWs(r1)[1..])
    requires AfterValue(r3) == Some(r4)
    ensures |r4| < |r3| <= |r1| < |r| && |SkipWs(r4)| <= |r4|
  {
    hide ReadString, AfterValue, SkipWs;
    WsShrinks(r);
    ReadShrinks(SkipWs(r));
    WsShrinks(r1);
    WsShrinks(SkipWs(r1)[1..]);
    ValueShrinks(r3);
    WsShrinks(r4);
  }

  function StringField(fields: map<string, string>, key: string): Option<string> {
    if key !in fields || fields[key] == "null" then Some("")
    else match ReadString(fields[key]) case None => None case Some((s, _)) => Some(s)
  }

  function BytesField(fields: map<string, string>, key: string): Option<Bytes> {
    if key !in fields || fields[key] == "null" then Some([])
    else match ReadString(fields[key]) case None => None case Some((s, _)) => Base64.Decode(s)
  }

  function FromJson(text: string): Option<Frame> {
    match Object(text)
    case None => None
    case Some(fields) =>
      match StringField(fields, "t")
      case None => None
      case Some(topic) =>
        match BytesField(fields, "p")
        case None => None
        case Some(payload) => Some(Frame(topic, payload))
  }

  // ---- Reading back what was written ------------------------------------

  lemma {:induction false} HexReads(d: nat)
    requires d < 16
    ensures HexValue(HexDigit(d)) == d
  {}

  lemma {:induction false} HexPairReads(n: nat)
    requires n < 0x80
    ensures HexNumber(['0', '0', HexDigit(n / 16), HexDigit(n % 16)], 0) == Some(n)
  {
    var a, b := HexDigit(n / 16), HexDigit(n % 16);
    HexReads(n / 16);
    HexReads(n % 16);
    assert ['0', '0', a, b][1..] == ['0', a, b] && ['0', a, b][1..] == [a, b] && [a, b][1..] == [b] && |[b][1..]| == 0;
    assert HexNumber([b], n / 16) == HexNumber([b][1..], 16 * (n / 16) + n % 16);
    assert HexNumber([a, b], 0) == HexNumber([b], n / 16);
  }

  // Each escape reads back as its character.
  lemma {:induction false} EscapeReads(c: char, r: string, acc: string)
    ensures StringBody(Escape(c) + r, acc) == StringBody(r, acc + [c])
  {
    var e := Escape(c) + r;
    var code := c as int;
    if code == 0x3c || code == 0x3e || code == 0x26 || (code < 0x20 && c != '\n' && c != '\r' && c != '\t') {
      HexPairReads(code);
      assert Escape(c) == ['\\', 'u', '0', '0', HexDigit(code / 16), HexDigit(code % 16)];
      assert e[2..6] == ['0', '0', HexDigit(code / 16), HexDigit(code % 16)] && e[6..] == r;
      assert Utf8(code) == [c];
    } else if c == '"' || c == '\\' || c == '\n' || c == '\r' || c == '\t' {
      assert |Escape(c)| == 2 && e[2..] == r;
    } else {
      assert Escape(c) == [c] && e[1..] == r;
    }
  }

  lemma {:induction false} CodedReads(s: string, r: string, acc: string)
    ensures StringBody(Coded(s, r), acc) == Some((acc + s, r))
    decreases |s|
  {
    hide Escape;
    if |s| > 0 {
      EscapeReads(s[0], Coded(s[1..], r), acc);
      CodedReads(s[1..], r, acc + [s[0]]);
      assert acc + s == acc + [s[0]] + s[1..];
    } else {
      assert acc + s == acc && (['"'] + r)[1..] == r;
    }
  }

  lemma {:induction false} QuotedReads(s: string, r: string)
    ensures ReadString(Quoted(s) + r) == Some((s, r)) && AfterValue(Quoted(s) + r) == Some(r)
  {
    hide StringBody;
    var all := Quoted(s) + r;
    QuotedIsCoded(s, r);
    assert all[1..] == Escaped(s) + "\"" + r;
    CodedReads(s, r, "");
    assert "" + s == s;
  }

  // Base64 text needs no escapes.
  lemma {:induction false} PlainEscaped(s: string)
    requires Base64.IsText(s)
    ensures Escaped(s) == s
    decreases |s|
  {
    if |s| > 0 {
      PlainEscaped(s[1..]);
      assert Escape(s[0]) == [s[0]] && s == [s[0]] + s[1..];
    }
  }

  // A frame's text is an object of two quoted members.
  function Member(key: string, value: string, r: string): string { Quoted(key) + (":" + (Quoted(value) + r)) }

  lemma {:induction false} ToJsonIsObject(f: Frame)
    ensures ToJson(f) == "{" + Member("t", f.topic, "," + Member("p", Base64.Encode(f.payload), "}"))
  {
    hide Base64.Encode, Quoted;
    var b, q := Base64.Encode(f.payload), Quoted(f.topic);
    Base64.EncodeHasLetters(f.payload);
    PlainEscaped(b);
    KeysAreQuoted();
    QuotedIs(b);
    Rearranged("{", Quoted("t"), ":", q, ",", Quoted("p"), "\"", b, "}");
    Punctuation();
  }

  lemma {:induction false} QuotedIs(s: string)
    requires Escaped(s) == s
    ensures Quoted(s) == "\"" + s + "\""
  {}

  lemma {:induction false} Punctuation()
    ensures "{" + "\"t\"" + ":" == "{\"t\":" && "," + "\"p\"" + ":" + "\"" == ",\"p\":\"" && "\"" + "}" == "\"}"
  {}

  lemma {:induction false} Rearranged(open: string, t: string, colon: string, q: string, comma: string, p: string,
                                      quote: string, b: string, close: string)
    ensures (open + t + colon) + (q + ((comma + p + colon + quote) + (b + (quote + close))))
            == open + (t + (colon + (q + (comma + (p + (colon + ((quote + b + quote) + close)))))))
  {
    var last := b + (quote + close);
    assert quote + last == (quote + b + quote) + close;
    assert (comma + p + colon + quote) + last == comma + (p + (colon + (quote + last)));
    var rest := q + (comma + (p + (colon + (quote + last))));
    assert (open + t + colon) + rest == open + (t + (colon + rest));
  }

  lemma {:induction false} KeysAreQuoted()
    ensures Quoted("t") == "\"t\"" && Quoted("p") == "\"p\""
  {
    assert Escaped("t") == Escape('t') + Escaped("t"[1..]) && |"t"[1..]| == 0;
    assert Escaped("p") == Escape('p') + Escaped("p"[1..]) && |"p"[1..]| == 0;
  }

  // One member followed by a comma or the closing brace.
  lemma {:induction false} MemberReads(key: string, value: string, r: string, fields: map<string, string>)
    requires |r| > 0 && (r[0] == ',' || r[0] == '}')
    ensures Members(Member(key, value, r), fields) ==
            if r[0] == ',' then Members(r[1..], fields[key := Quoted(value)]) else Some(fields[key := Quoted(value)])
  {
    hide ReadString, AfterValue, Quoted;
    var r3 := Quoted(value) + r;
    var r2 := ":" + r3;
    QuotedStarts(key, r2);
    QuotedStarts(value, r);
    QuotedReads(key, r2);
    QuotedReads(value, r);
    NoWs(Member(key, value, r));
    NoWs(r2);
    assert r2[1..] == r3;
    NoWs(r3);
    NoWs(r);
    assert r3[..|r3| - |r|] == Quoted(value);
  }

  lemma {:induction false} QuotedStarts(s: string, r: string)
    ensures |Quoted(s) + r| > 0 && (Quoted(s) + r)[0] == '"'
  {}

  lemma {:induction false} NoWs(r: string)
    requires |r| > 0 && !IsSpace(r[0])
    ensures SkipWs(r) == r
  {}

  lemma {:induction false} ObjectReads(f: Frame)
    ensures Object(ToJson(f)) == Some(map["t" := Quoted(f.topic), "p" := Quoted(Base64.Encode(f.payload))])
  {
    hide Quoted, Members, ToJson;
    var b := Base64.Encode(f.payload);
    var second := Member("p", b, "}");
    var first := Member("t", f.topic, "," + second);
    ToJsonIsObject(f);
    QuotedStarts("t", ":" + (Quoted(f.topic) + ("," + second)));
    QuotedStarts("p", ":" + (Quoted(b) + "}"));
    assert ("{" + first)[1..] == first;
    NoWs("{" + first);
    NoWs(first);
    var none: map<string, string> := map[];
    MemberReads("t", f.topic, "," + second, none);
    assert ("," + second)[1..] == second;
    MemberReads("p", b, "}", none["t" := Quoted(f.topic)]);
    assert none["t" := Quoted(f.topic)]["p" := Quoted(b)] == map["t" := Quoted(f.topic), "p" := Quoted(b)];
  }

  /** Any topic and any payload bytes survive the JSON text. */
  lemma {:induction false} JsonRoundTrip(f: Frame)
    ensures FromJson(ToJson(f)) == Some(f)
  {
    hide ReadString, Object, ToJson, Base64.Decode, Quoted;
    ObjectReads(f);
    var t, p := Quoted(f.topic), Quoted(Base64.Encode(f.payload));
    QuotedStarts(f.topic, "");
    QuotedStarts(Base64.Encode(f.payload), "");
    assert t + "" == t && p + "" == p;
    QuotedReads(f.topic, "");
    QuotedReads(Base64.Encode(f.payload), "");
    Base64.RoundTrip(f.payload);
    assert t[0] != "null"[0] && p[0] != "null"[0];
  }

  // ---- The stream -------------------------------------------------------

  const MAX_FRAME: nat := 0x100_0000
  const U32: nat := 0x1_0000_0000

  datatype ReadResult = ShortRead | FrameTooLarge | InvalidFrame | Got(frame: Frame, rest: string)

  // put_be32
  function LengthBytes(n: nat): (s: string)
    requires n < U32
    ensures |s| == 4
  {
    [(n / 0x100_0000) as char, (n / 0x1_0000 % 256) as char, (n / 0x100 % 256) as char, (n % 256) as char]
  }

  // get_be32
  function LengthOf(s: string): nat
    requires |s| == 4
  {
    (s[0] as int % 256) * 0x100_0000 + (s[1] as int % 256) * 0x1_0000 + (s[2] as int % 256) * 0x100 + s[3] as int % 256
  }

  lemma {:induction false} LengthTells(n: nat)
    requires n < U32
    ensures LengthOf(LengthBytes(n)) == n
  {
    FourDigits(n);
    DigitsTell(n / 0x100_0000, n / 0x1_0000 % 256, n / 0x100 % 256, n % 256);
  }

  lemma DigitsTell(a: nat, b: nat, c: nat, d: nat)
    requires a < 256 && b < 256 && c < 256 && d < 256
    ensures LengthOf([a as char, b as char, c as char, d as char]) == a * 0x100_0000 + b * 0x1_0000 + c * 0x100 + d
  {}

  lemma FourDigits(n: nat)
    requires n < U32
    ensures n / 0x100_0000 < 256
    ensures n == n / 0x100_0000 * 0x100_0000 + n / 0x1_0000 % 256 * 0x1_0000 + n / 0x100 % 256 * 0x100 + n % 256
  {
    var m := n / 0x100;
    var k := m / 0x100;
    var a, b, c, d := k / 0x100, k % 0x100, m % 0x100, n % 0x100;
    assert n == 0x100 * m + d && m == 0x100 * k + c && k == 0x100 * a + b;
    Quotient(n, 0x1_0000, k, 0x100 * c + d);
    Quotient(n, 0x100_0000, a, 0x1_0000 * b + 0x100 * c + d);
  }

  lemma Quotient(n: nat, w: nat, q: nat, r: nat)
    requires n == w * q + r && r < w
    ensures n / w == q
  {
    var p := n / w;
    assert n == w * p + n % w;
    StepUp(w, p, q);
    StepUp(w, q, p);
  }

  function Written(f: Frame): string { LengthBytes(|ToJson(f)| % U32) + ToJson(f) }

  /** A frame on the wire: the length of its text in four bytes, highest first,
      then the text, an object of the quoted topic "t" and the base64 payload "p". */
  lemma {:induction false} FrameLayout(f: Frame)
    requires |ToJson(f)| < U32
    ensures var w, q, b := Written(f), Quoted(f.topic), Base64.Encode(f.payload);
      && |w| >= 4 && w[0] < 256 as char && w[1] < 256 as char && w[2] < 256 as char && w[3] < 256 as char
      && w[0] as int * 0x100_0000 + w[1] as int * 0x1_0000 + w[2] as int * 0x100 + w[3] as int == |w| - 4
      && w[4..] == "{\"t\":" + q + ",\"p\":\"" + b + "\"}"
  {
    hide *;
    var w, n := Written(f), |ToJson(f)|;
    WrittenParts(f);
    LengthLayout(n);
    assert w[0] == w[..4][0] && w[1] == w[..4][1] && w[2] == w[..4][2] && w[3] == w[..4][3];
    JsonText(f);
  }

  lemma WrittenParts(f: Frame)
    requires |ToJson(f)| < U32
    ensures var w := Written(f);
      |w| == 4 + |ToJson(f)| && w[..4] == LengthBytes(|ToJson(f)|) && w[4..] == ToJson(f)
  {
    hide ToJson, LengthBytes;
  }

  lemma LengthLayout(n: nat)
    requires n < U32
    ensures var s := LengthBytes(n);
      && s[0] < 256 as char && s[1] < 256 as char && s[2] < 256 as char && s[3] < 256 as char
      && s[0] as int * 0x100_0000 + s[1] as int * 0x1_0000 + s[2] as int * 0x100 + s[3] as int == n
  {
    FourDigits(n);
  }

  lemma JsonText(f: Frame)
    ensures ToJson(f) == "{\"t\":" + Quoted(f.topic) + ",\"p\":\"" + Base64.Encode(f.payload) + "\"}"
  {
    hide Quoted, Base64.Encode;
    JsonJoined("{\"t\":", Quoted(f.topic), ",\"p\":\"", Base64.Encode(f.payload), "\"}");
  }

  lemma JsonJoined(a: string, q: string, c: string, b: string, e: string)
    ensures a + (q + (c + (b + e))) == a + q + c + b + e
  {}

  function ReadFrame(stream: string): ReadResult {
    if |stream| < 4 then ShortRead
    else
      var n := LengthOf(stream[..4]);
      if n > MAX_FRAME then FrameTooLarge
      else if |stream| < 4 + n then ShortRead
      else
        match FromJson(stream[4..4 + n])
        case None => InvalidFrame
        case Some(f) => Got(f, stream[4 + n..])
  }

  /** A frame is read back from the front of the stream exactly when its text
      fits the limit; otherwise the reader says so. */
  lemma {:induction false} FrameRoundTrip(f: Frame, rest: string)
    requires |ToJson(f)| < U32
    ensures ReadFrame(Written(f) + rest) == if |ToJson(f)| <= MAX_FRAME then Got(f, rest) else FrameTooLarge
  {
    hide ToJson, FromJson, LengthOf, LengthBytes;
    var text, all := ToJson(f), Written(f) + rest;
    LengthTells(|text|);
    assert all[..4] == LengthBytes(|text|);
    if |text| <= MAX_FRAME {
      assert all[4..4 + |text|] == text && all[4 + |text|..] == rest;
      JsonRoundTrip(f);
    }
  }

  function WrittenAll(fs: seq<Frame>): string {
    if |fs| == 0 then "" else Written(fs[0]) + WrittenAll(fs[1..])
  }

  // Frames read until the stream ends or fails.
  function ReadAll(stream: string): seq<Frame>
    decreases |stream|
  {
    match ReadFrame(stream)
    case Got(f, rest) => [f] + ReadAll(rest)
    case _ => []
  }

  /** Any list of frames that fit, written one after another, is read back. */
  lemma {:induction false} StreamRoundTrip(fs: seq<Frame>)
    requires forall i :: 0 <= i < |fs| ==> |ToJson(fs[i])| <= MAX_FRAME
    ensures ReadAll(WrittenAll(fs)) == fs
    decreases |fs|
  {
    hide ToJson, Written, ReadFrame;
    if |fs| > 0 {
      FrameRoundTrip(fs[0], WrittenAll(fs[1..]));
      StreamRoundTrip(fs[1..]);
      assert fs == [fs[0]] + fs[1..];
    } else {
      NothingToRead(WrittenAll(fs));
    }
  }

  lemma {:induction false} NothingToRead(stream: string)
    requires |stream| == 0
    ensures ReadFrame(stream) == ShortRead
  {}

  /** The bytes in transit: what the write callback appends and the read
      callback takes, n bytes or nothing. */
  class Pipe {
    var data: string

    constructor ()
      ensures data == ""
    {
      data := "";
    }

    method Send(f: Frame)
      modifies this
      ensures data == old(data) + Written(f)
    {
      hide ToJson, LengthBytes;
      var text := FrameText(f);
      data := data + LengthBytes(|text| % U32);
      if |text| > 0 { data := data + text; }
    }

    method FrameText(f: Frame) returns (text: string)
      ensures text == ToJson(f)
    {
      hide Quoted;
      var b64 := Base64.EncodeBytes(f.payload);
      text := "{\"t\":" + (Quoted(f.topic) + (",\"p\":\"" + (b64 + "\"}")));
    }

    method Receive() returns (r: ReadResult)
      modifies this
      ensures r == ReadFrame(old(data))
      ensures r.Got? ==> data == r.rest
    {
      hide FromJson, LengthOf;
      if |data| < 4 { return ShortRead; }
      var n := LengthOf(data[..4]);
      ghost var was := data;
      data := data[4..];
      if n > MAX_FRAME { return FrameTooLarge; }
      if |data| < n { return ShortRead; }
      var text := data[..n];
      data := data[n..];
      assert text == was[4..4 + n] && data == was[4 + n..];
      var reader := new JsonReader(text);
      var f := reader.ReadObject();
      if f == None { return InvalidFrame; }
      return Got(f.value, data);
    }
  }

  /** The reader's text and cursor. */
  class JsonReader {
    const s: string
    var i: nat

    predicate Valid() reads this { i <= |s| }

    function Rest(): string reads this requires Valid() { s[i..] }

    constructor (text: string)
      ensures Valid() && Rest() == text && s == text && i == 0
    {
      s, i := text, 0;
    }

    method SkipSpace()
      requires Valid()
      modifies this
      ensures Valid() && i >= old(i) && Rest() == SkipWs(old(Rest()))
    {
      while i < |s| && IsSpace(s[i])
        invariant Valid() && i >= old(i) && SkipWs(Rest()) == SkipWs(old(Rest()))
      {
        assert s[i..][1..] == s[i + 1..];
        i := i + 1;
      }
    }

    method Consume(c: char) returns (ok: bool)
      requires Valid()
      modifies this
      ensures Valid() && i >= old(i) && ok == (|old(Rest())| > 0 && old(Rest())[0] == c)
      ensures Rest() == if ok then old(Rest())[1..] else old(Rest())
    {
      ok := i < |s| && s[i] == c;
      if ok { i := i + 1; }
    }

    method ReadQuoted() returns (r: Option<string>)
      requires Valid()
      modifies this
      ensures Valid() && i >= old(i)
      ensures match ReadString(old(Rest()))
        case None => r == None
        case Some((v, rest)) => r == Some(v) && Rest() == rest
    {
      hide StringBody;
      var ok := Consume('"');
      if !ok { return None; }
      r := ReadBody();
    }

    method ReadBody() returns (r: Option<string>)
      requires Valid()
      modifies this
      ensures Valid() && i >= old(i)
      ensures match StringBody(old(Rest()), "")
        case None => r == None
        case Some((v, rest)) => r == Some(v) && Rest() == rest
    {
      hide HexNumber, HexValue, Utf8, Simple;
      var out := "";
      while i < |s|
        invariant Valid() && i >= old(i) && StringBody(Rest(), out) == StringBody(old(Rest()), "")
        decreases |s| - i
      {
        var c := s[i];
        ghost var rest := Rest();
        assert rest[1..] == s[i + 1..];
        if c == '"' {
          i := i + 1;
          return Some(out);
        }
        if c != '\\' {
          i := i + 1;
          out := out + [c];
        } else {
          if i + 2 > |s| { i := |s|; return None; }
          var e := s[i + 1];
          assert rest[2..] == s[i + 2..];
          if e == 'u' {
            if i + 6 > |s| { return None; }
            assert rest[2..6] == s[i + 2..i + 6] && rest[6..] == s[i + 6..];
            var cp := ReadHex(s[i + 2..i + 6]);
            if cp == None { return None; }
            HexBound(s[i + 2..i + 6], 0);
            out := out + Utf8(cp.value);
            i := i + 6;
          } else {
            var x := Simple(e);
            if x == None { return None; }
            out := out + [x.value];
            i := i + 2;
          }
        }
      }
      return None;
    }

    method ReadHex(h: string) returns (r: Option<nat>)
      ensures r == HexNumber(h, 0)
    {
      var cp: nat := 0;
      assert h[0..] == h;
      for k := 0 to |h|
        invariant HexNumber(h, 0) == HexNumber(h[k..], cp)
      {
        assert h[k..][1..] == h[k + 1..];
        if HexValue(h[k]) < 0 { return None; }
        cp := 16 * cp + HexValue(h[k]);
      }
      return Some(cp);
    }

    method ReadRaw() returns (raw: Option<string>)
      requires Valid()
      modifies this
      ensures Valid() && i >= old(i)
      ensures match AfterValue(old(Rest()))
        case None => raw == None
        case Some(rest) => Rest() == rest && raw == Some(old(Rest())[..|old(Rest())| - |rest|])
    {
      hide StringBody, Nested;
      var start := i;
      if i >= |s| { return None; }
      var c := s[i];
      if c == '"' {
        var tmp := ReadQuoted();
        if tmp == None { return None; }
      } else if c == '{' || c == '[' {
        var ok := SkipNested(c, if c == '{' then '}' else ']');
        if !ok { return None; }
      } else {
        SkipBare();
      }
      ValueShrinks(old(Rest()));
      if i == start { return None; }
      assert s[start..i] == s[start..][..i - start];
      return Some(s[start..i]);
    }

    method SkipBare()
      requires Valid()
      modifies this
      ensures Valid() && i >= old(i) && Rest() == Bare(old(Rest()))
    {
      while i < |s| && s[i] != ',' && s[i] != '}' && s[i] != ']' && !IsSpace(s[i])
        invariant Valid() && i >= old(i) && Bare(Rest()) == Bare(old(Rest()))
      {
        assert s[i..][1..] == s[i + 1..];
        i := i + 1;
      }
    }

    method SkipNested(open: char, close: char) returns (ok: bool)
      requires Valid() && open != close && open != '"' && close != '"'
      requires |Rest()| > 0 && Rest()[0] == open
      modifies this
      ensures Valid() && i >= old(i)
      ensures match Nested(old(Rest()), open, close, 0, false) case None => !ok case Some(rest) => ok && Rest() == rest
    {
      var depth, inStr := 0, false;
      while i < |s|
        invariant Valid() && i >= old(i) && (depth > 0 || (i == old(i) && !inStr && depth == 0))
        invariant Nested(Rest(), open, close, depth, inStr) == Nested(old(Rest()), open, close, 0, false)
        decreases |s| - i
      {
        var c := s[i];
        ghost var rest := Rest();
        assert rest[1..] == s[i + 1..];
        if inStr {
          if c == '\\' {
            if i + 2 > |s| { return false; }
            assert rest[2..] == s[i + 2..];
            i := i + 2;
          } else {
            inStr := c != '"';
            i := i + 1;
          }
        } else if c == '"' {
          inStr := true;
          i := i + 1;
        } else if c == open {
          depth := depth + 1;
          i := i + 1;
        } else if c == close {
          depth := depth - 1;
          i := i + 1;
          if depth == 0 { return true; }
        } else {
          i := i + 1;
        }
      }
      return false;
    }

    method ReadMember() returns (r: Option<(string, string)>)
      requires Valid()
      modifies this
      ensures Valid() && i >= old(i)
      ensures match MemberAt(old(Rest()))
        case None => r == None
        case Some((k, v, rest)) => r == Some((k, v)) && Rest() == rest
    {
      hide ReadString, AfterValue, SkipWs;
      SkipSpace();
      var key := ReadQuoted();
      if key == None { return None; }
      SkipSpace();
      var ok := Consume(':');
      if !ok { return None; }
      SkipSpace();
      var raw := ReadRaw();
      if raw == None { return None; }
      return Some((key.value, raw.value));
    }

    method ReadMembers() returns (r: Option<map<string, string>>)
      requires Valid()
      modifies this
      ensures Valid() && r == Members(old(Rest()), map[])
    {
      hide MemberAt, SkipWs;
      var fields: map<string, string> := map[];
      while true
        invariant Valid() && Members(Rest(), fields) == Members(old(Rest()), map[])
        decreases |s| - i
      {
        MemberShrinks(Rest());
        var m := ReadMember();
        if m == None { return None; }
        fields := fields[m.value.0 := m.value.1];
        SkipSpace();
        var ok := Consume(',');
        if !ok {
          ok := Consume('}');
          return if ok then Some(fields) else None;
        }
      }
    }

    method ReadFields() returns (r: Option<map<string, string>>)
      requires Valid()
      modifies this
      ensures Valid() && r == Object(old(Rest()))
    {
      hide Members;
      SkipSpace();
      var ok := Consume('{');
      if !ok { return None; }
      SkipSpace();
      if i < |s| && s[i] == '}' { return Some(map[]); }
      r := ReadMembers();
    }

    method ReadObject() returns (r: Option<Frame>)
      requires Valid()
      modifies this
      ensures Valid() && r == FromJson(old(Rest()))
    {
      hide Object, ReadString, Base64.Decode;
      var fields := ReadFields();
      if fields == None { return None; }
      var topic := StringField(fields.value, "t");
      if topic == None { return None; }
      var payload := BytesField(fields.value, "p");
      if payload == None { return None; }
      return Some(Frame(topic.value, payload.value));
    }
  }
}
