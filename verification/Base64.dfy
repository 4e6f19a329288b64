/// The base64 codec of the WAN bridge (src/bridge/wan/wan.cpp).  Characters stand
/// for bytes.

module Base64 {
  import opened Octets

  // RFC 4648 section 4.
  function Letter(d: nat): (c: char)
    requires d < 64
  {
    if d < 26 then 'A' + d as char
    else if d < 52 then 'a' + (d - 26) as char
    else if d < 62 then '0' + (d - 52) as char
    else if d == 62 then '+' else '/'
  }

  function ValueOf(c: char): int {
    if 'A' <= c <= 'Z' then c as int - 'A' as int
    else if 'a' <= c <= 'z' then c as int - 'a' as int + 26
    else if '0' <= c <= '9' then c as int - '0' as int + 52
    else if c == '+' then 62
    else if c == '/' then 63
    else -1
  }

  lemma LetterTells(d: nat)
    requires d < 64
    ensures ValueOf(Letter(d)) == d && Letter(d) != '=' && !IsBlank(Letter(d))
  {}

  predicate IsBlank(c: char) { c == '\n' || c == '\r' || c == ' ' || c == '\t' }

  function Three(a: octet, b: octet, c: octet): nat { a * 0x1_0000 + b * 0x100 + c }

  // The four letters of a 24-bit number.
  function Letters(n: nat): (s: string)
    requires n < 0x100_0000
    ensures |s| == 4
  {
    [Letter(n / 0x4_0000), Letter(n / 0x1000 % 64), Letter(n / 64 % 64), Letter(n % 64)]
  }

  function Encode(data: Bytes): string {
    if |data| == 0 then ""
    else if |data| == 1 then Letters(Three(data[0], 0, 0))[..2] + "=="
    else if |data| == 2 then Letters(Three(data[0], data[1], 0))[..3] + "="
    else Letters(Three(data[0], data[1], data[2])) + Encode(data[3..])
  }

  function Stripped(s: string): string {
    if |s| == 0 then ""
    else Stripped(s[..|s| - 1]) + if IsBlank(s[|s| - 1]) then "" else [s[|s| - 1]]
  }

  // '=' counts as 0 wherever it stands.
  function Digit(c: char): int { if c == '=' then 0 else ValueOf(c) }

  function PadOf(s: string): nat {
    (if |s| >= 1 && s[|s| - 1] == '=' then 1 else 0) + if |s| >= 2 && s[|s| - 2] == '=' then 1 else 0
  }

  predicate AllDigits(s: string)
    requires |s| == 4
  {
    Digit(s[0]) >= 0 && Digit(s[1]) >= 0 && Digit(s[2]) >= 0 && Digit(s[3]) >= 0
  }

  // The 24-bit number four letters make.
  function Joined(s: string): nat
    requires |s| == 4 && AllDigits(s)
  {
    Digit(s[0]) * 0x4_0000 + Digit(s[1]) * 0x1000 + Digit(s[2]) * 64 + Digit(s[3])
  }

  function High(n: nat): octet { n / 0x1_0000 % 256 }
  function Mid(n: nat): octet { n / 0x100 % 256 }
  function Low(n: nat): octet { n % 256 }

  // Four letters, less the `drop` bytes the last block gives up.
  function Block(s: string, drop: nat): Option<Bytes>
    requires |s| == 4
  {
    if !AllDigits(s) then None
    else
      var n := Joined(s);
      Some([High(n)] + (if drop >= 2 then [] else [Mid(n)]) + (if drop >= 1 then [] else [Low(n)]))
  }

  function DecodeBlocks(s: string, pad: nat): Option<Bytes>
    requires |s| % 4 == 0
  {
    if |s| == 0 then Some([])
    else
      match Block(s[..4], if |s| == 4 then pad else 0)
      case None => None
      case Some(bytes) => match DecodeBlocks(s[4..], pad) case None => None case Some(rest) => Some(bytes + rest)
  }

  function Decode(text: string): Option<Bytes> {
    var s := Stripped(text);
    if |s| == 0 then Some([]) else if |s| % 4 != 0 then None else DecodeBlocks(s, PadOf(s))
  }

  // ---- Round trip -------------------------------------------------------

  lemma {:induction false} LettersTell(n: nat)
    requires n < 0x100_0000
    ensures AllDigits(Letters(n)) && Joined(Letters(n)) == n
    ensures forall i :: 0 <= i < 4 ==> Digit(Letters(n)[i]) >= 0 && Letters(n)[i] != '=' && !IsBlank(Letters(n)[i])
  {
    hide Letter, ValueOf;
    LetterTells(n / 0x4_0000);
    LetterTells(n / 0x1000 % 64);
    LetterTells(n / 64 % 64);
    LetterTells(n % 64);
    assert n == n / 64 * 64 + n % 64;
    assert n / 64 == n / 0x1000 * 64 + n / 64 % 64;
    assert n / 0x1000 == n / 0x4_0000 * 64 + n / 0x1000 % 64;
  }

  lemma ThreeTells(a: octet, b: octet, c: octet)
    ensures var n := Three(a, b, c); n < 0x100_0000 && High(n) == a && Mid(n) == b && Low(n) == c
  {}

  lemma {:induction false} NoBlanks(s: string)
    requires forall i :: 0 <= i < |s| ==> !IsBlank(s[i])
    ensures Stripped(s) == s
    decreases |s|
  {
    if |s| > 0 { NoBlanks(s[..|s| - 1]); }
  }

  // Letters of base64 text, padding included.
  predicate IsText(s: string) { forall i :: 0 <= i < |s| ==> (s[i] == '=' || ValueOf(s[i]) >= 0) && !IsBlank(s[i]) }

  lemma LettersAreText(n: nat, k: nat, pad: string)
    requires n < 0x100_0000 && k <= 4 && IsText(pad)
    ensures IsText(Letters(n)[..k] + pad)
  {
    hide ValueOf, Letters;
    LettersTell(n);
  }

  lemma {:induction false} EncodeHasLetters(data: Bytes)
    ensures |Encode(data)| % 4 == 0 && IsText(Encode(data))
    decreases |data|
  {
    hide ValueOf, Letters, IsText, Three;
    assert IsText("=") && IsText("==") && IsText("") by { PaddingIsText(); }
    if |data| >= 3 {
      ThreeTells(data[0], data[1], data[2]);
      var n := Three(data[0], data[1], data[2]);
      EncodeHasLetters(data[3..]);
      LettersAreText(n, 4, Encode(data[3..]));
      assert Letters(n)[..4] == Letters(n);
    } else if |data| == 2 {
      ThreeTells(data[0], data[1], 0);
      LettersAreText(Three(data[0], data[1], 0), 3, "=");
    } else if |data| == 1 {
      ThreeTells(data[0], 0, 0);
      LettersAreText(Three(data[0], 0, 0), 2, "==");
    }
  }

  lemma PaddingIsText()
    ensures IsText("=") && IsText("==") && IsText("")
  {}

  // How many padding letters the text of n bytes ends in.
  function PadFor(n: nat): nat { (3 - n % 3) % 3 }

  lemma BlockInFront(n: nat, rest: string)
    requires n < 0x100_0000 && |rest| % 4 == 0
    ensures PadOf(Letters(n) + rest) == PadOf(rest)
  {
    hide Letters, ValueOf;
    LettersTell(n);
    var all := Letters(n) + rest;
    if |rest| > 0 {
      assert all[|all| - 1] == rest[|rest| - 1] && all[|all| - 2] == rest[|rest| - 2];
    } else {
      assert all[3] == Letters(n)[3] && all[2] == Letters(n)[2];
    }
  }

  lemma {:induction false} EncodePads(data: Bytes)
    ensures PadOf(Encode(data)) == PadFor(|data|)
    decreases |data|
  {
    hide ValueOf, Letters, Three, IsText;
    if |data| >= 3 {
      ThreeTells(data[0], data[1], data[2]);
      EncodePads(data[3..]);
      EncodeHasLetters(data[3..]);
      BlockInFront(Three(data[0], data[1], data[2]), Encode(data[3..]));
    } else if |data| == 2 {
      ThreeTells(data[0], data[1], 0);
      LettersTell(Three(data[0], data[1], 0));
    } else if |data| == 1 {
      ThreeTells(data[0], 0, 0);
      LettersTell(Three(data[0], 0, 0));
    }
  }

  lemma {:induction false} FullBlock(a: octet, b: octet, c: octet)
    ensures Three(a, b, c) < 0x100_0000 && Block(Letters(Three(a, b, c)), 0) == Some([a, b, c])
  {
    hide ValueOf, Letters, Three, Joined, AllDigits, High, Mid, Low;
    ThreeTells(a, b, c);
    LettersTell(Three(a, b, c));
    assert [a] + [b] + [c] == [a, b, c];
  }

  // '=' in place of a letter that stands for 0 makes no difference.
  lemma {:induction false} PaddedTells(n: nat, k: nat)
    requires n < 0x100_0000 && (k == 3 || k == 2) && n % (if k == 3 then 0x100 else 0x1_0000) == 0
    ensures var s := Letters(n)[..k] + (if k == 3 then "=" else "=="); |s| == 4 && AllDigits(s) && Joined(s) == n
  {
    hide ValueOf, Letter;
    LettersTell(n);
    if k == 3 { LastDigitIsZero(n); } else { LastDigitsAreZero(n); }
  }

  lemma {:induction false} BlockOfTwo(a: octet, b: octet)
    ensures Three(a, b, 0) < 0x100_0000 && Block(Letters(Three(a, b, 0))[..3] + "=", 1) == Some([a, b])
  {
    hide ValueOf, Letters, Joined, AllDigits, High, Mid;
    ThreeTells(a, b, 0);
    PaddedTells(Three(a, b, 0), 3);
    assert [a] + [b] + [] == [a, b];
  }

  lemma {:induction false} BlockOfOne(a: octet)
    ensures Three(a, 0, 0) < 0x100_0000 && Block(Letters(Three(a, 0, 0))[..2] + "==", 2) == Some([a])
  {
    hide ValueOf, Letters, Joined, AllDigits, High, Mid;
    ThreeTells(a, 0, 0);
    assert Three(a, 0, 0) % 0x1_0000 == 0;
    PaddedTells(Three(a, 0, 0), 2);
    assert [a] + [] + [] == [a];
  }

  lemma {:induction false} BlocksRoundTrip(data: Bytes, pad: nat)
    requires pad == PadFor(|data|)
    ensures |Encode(data)| % 4 == 0 && DecodeBlocks(Encode(data), pad) == Some(data)
    decreases |data|
  {
    hide Block, Letters, Three;
    EncodeHasLetters(data);
    var s := Encode(data);
    if |data| >= 3 {
      FullBlock(data[0], data[1], data[2]);
      LastBlock(data);
      BlocksRoundTrip(data[3..], pad);
      assert s[..4] == Letters(Three(data[0], data[1], data[2])) && s[4..] == Encode(data[3..]);
      assert data == [data[0], data[1], data[2]] + data[3..];
    } else if |data| == 2 {
      BlockOfTwo(data[0], data[1]);
      OneBlock(s, pad);
      assert data == [data[0], data[1]];
    } else if |data| == 1 {
      BlockOfOne(data[0]);
      OneBlock(s, pad);
      assert data == [data[0]];
    }
  }

  lemma OneBlock(s: string, pad: nat)
    requires |s| == 4
    ensures DecodeBlocks(s, pad) == Block(s, pad)
  {
    hide Block;
    assert s[..4] == s && |s[4..]| == 0;
    if Block(s, pad).Some? { assert Block(s, pad).value + [] == Block(s, pad).value; }
  }

  // A full block is the last one only when nothing is padded.
  lemma {:induction false} LastBlock(data: Bytes)
    requires |data| >= 3
    ensures |Encode(data)| == 4 ==> PadFor(|data|) == 0
  {
    hide Letters;
    ThreeTells(data[0], data[1], data[2]);
    if |data| > 3 { EncodeIsLong(data[3..]); }
  }

  lemma {:induction false} EncodeIsLong(data: Bytes)
    requires |data| > 0
    ensures |Encode(data)| >= 4
  {
    hide Letters, Encode;
    EncodeLength(data);
  }

  lemma {:induction false} EncodeLength(data: Bytes)
    ensures |data| > 0 ==> |Encode(data)| >= 4
  {
    hide Letters;
    if |data| >= 3 { ThreeTells(data[0], data[1], data[2]); }
    else if |data| == 2 { ThreeTells(data[0], data[1], 0); }
    else if |data| == 1 { ThreeTells(data[0], 0, 0); }
  }

  lemma LastDigitIsZero(n: nat)
    requires n < 0x100_0000 && n % 256 == 0
    ensures Digit(Letters(n)[3]) == 0
  {
    LetterTells(n % 64);
    assert n % 64 == 0;
  }

  lemma {:induction false} LastDigitsAreZero(n: nat)
    requires n < 0x100_0000 && n % 0x1_0000 == 0
    ensures Digit(Letters(n)[2]) == 0 && Digit(Letters(n)[3]) == 0
  {
    LetterTells(n % 64);
    LetterTells(n / 64 % 64);
    assert n % 64 == 0 && n / 64 % 64 == 0;
  }

  lemma {:induction false} RoundTrip(data: Bytes)
    ensures Decode(Encode(data)) == Some(data)
  {
    EncodeHasLetters(data);
    NoBlanks(Encode(data));
    EncodePads(data);
    BlocksRoundTrip(data, PadFor(|data|));
    if |data| > 0 { EncodeIsLong(data); }
  }

  // ---- The loops --------------------------------------------------------

  method EncodeBytes(data: Bytes) returns (out: string)
    ensures out == Encode(data)
  {
    hide Letters, Three;
    out := "";
    var i := 0;
    assert data[0..] == data;
    while i + 3 <= |data|
      invariant i <= |data| && out + Encode(data[i..]) == Encode(data)
    {
      ThreeTells(data[i], data[i + 1], data[i + 2]);
      var four := Letters(Three(data[i], data[i + 1], data[i + 2]));
      assert data[i..][3..] == data[i + 3..];
      assert out + (four + Encode(data[i + 3..])) == (out + four) + Encode(data[i + 3..]);
      out := out + four;
      i := i + 3;
    }
    var rem := |data| - i;
    if rem == 1 {
      ThreeTells(data[i], 0, 0);
      out := out + (Letters(Three(data[i], 0, 0))[..2] + "==");
    } else if rem == 2 {
      ThreeTells(data[i], data[i + 1], 0);
      out := out + (Letters(Three(data[i], data[i + 1], 0))[..3] + "=");
    } else {
      assert out + "" == out;
    }
  }

  method Strip(text: string) returns (s: string)
    ensures s == Stripped(text)
  {
    s := "";
    for i := 0 to |text|
      invariant s == Stripped(text[..i])
    {
      assert text[..i + 1][..i] == text[..i];
      if !IsBlank(text[i]) { s := s + [text[i]]; }
    }
    assert text[..|text|] == text;
  }

  method DecodeText(text: string) returns (r: Option<Bytes>)
    ensures r == Decode(text)
  {
    hide Digit, Block, Prefixed;
    var s := Strip(text);
    if |s| == 0 { return Some([]); }
    if |s| % 4 != 0 { return None; }
    var pad := PadOf(s);
    var out: Bytes := [];
    var i := 0;
    assert s[0..] == s;
    PrefixedNothing(out, DecodeBlocks(s, pad));
    while i < |s|
      invariant i <= |s| && i % 4 == 0 && (|s| - i) % 4 == 0
      invariant DecodeBlocks(s, pad) == Prefixed(out, DecodeBlocks(s[i..], pad))
    {
      var lastBlock := i + 4 == |s|;
      assert s[i..][..4] == s[i..i + 4] && s[i..][4..] == s[i + 4..];
      var bytes := DecodeFour(s[i..i + 4], lastBlock, pad);
      PrefixedBlock(out, bytes, DecodeBlocks(s[i + 4..], pad), DecodeBlocks(s[i..], pad));
      if bytes == None { return None; }
      out := out + bytes.value;
      i := i + 4;
    }
    PrefixedEnd(out);
    return Some(out);
  }

  method DecodeFour(s: string, lastBlock: bool, pad: nat) returns (r: Option<Bytes>)
    requires |s| == 4
    ensures r == Block(s, if lastBlock then pad else 0)
  {
    hide Digit;
    var v: seq<int> := [];
    for k := 0 to 4
      invariant |v| == k && forall j :: 0 <= j < k ==> v[j] == Digit(s[j]) >= 0
    {
      var d := Digit(s[k]);
      if d < 0 { return None; }
      v := v + [d];
    }
    var n := v[0] * 0x4_0000 + v[1] * 0x1000 + v[2] * 64 + v[3];
    var bytes: Bytes := [High(n)];
    if !(lastBlock && pad >= 2) { bytes := bytes + [Mid(n)]; }
    if !(lastBlock && pad >= 1) { bytes := bytes + [Low(n)]; }
    BlockIs(s, if lastBlock then pad else 0, n, bytes);
    return Some(bytes);
  }

  lemma BlockIs(s: string, drop: nat, n: nat, bytes: Bytes)
    requires |s| == 4 && AllDigits(s) && n == Joined(s)
    requires bytes == [High(n)] + (if drop >= 2 then [] else [Mid(n)]) + (if drop >= 1 then [] else [Low(n)])
    ensures Block(s, drop) == Some(bytes)
  {}

  function Prefixed(a: Bytes, r: Option<Bytes>): Option<Bytes> {
    match r case None => None case Some(b) => Some(a + b)
  }

  lemma PrefixedNothing(a: Bytes, r: Option<Bytes>)
    requires |a| == 0
    ensures Prefixed(a, r) == r
  {
    if r.Some? { assert a + r.value == r.value; }
  }

  lemma PrefixedEnd(a: Bytes)
    ensures Prefixed(a, Some([])) == Some(a)
  {
    assert a + [] == a;
  }

  // One more block in front of the rest.
  lemma PrefixedBlock(a: Bytes, b: Option<Bytes>, rest: Option<Bytes>, all: Option<Bytes>)
    requires all == match b case None => None case Some(x) => (match rest case None => None case Some(y) => Some(x + y))
    ensures Prefixed(a, all) == match b case None => None case Some(x) => Prefixed(a + x, rest)
  {
    if b.Some? && rest.Some? { assert a + (b.value + rest.value) == (a + b.value) + rest.value; }
  }
}
