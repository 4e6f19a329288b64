/// The base64 text letter by letter (RFC 4648 sections 3.3 and 4;
/// src/bridge/wan/wan.cpp), and what the decoder accepts.

module Base64Layout {
  import opened Octets
  import opened Base64

  // The letter that stands for six bits.
  predicate StandsFor(c: char, d: nat) {
    if d < 26 then c as int == 0x41 + d               // A to Z
    else if d < 52 then c as int == 0x61 + (d - 26)   // a to z
    else if d < 62 then c as int == 0x30 + (d - 52)   // 0 to 9
    else if d == 62 then c == '+'
    else d == 63 && c == '/'
  }

  function ByteAt(data: Bytes, i: nat): octet { if i < |data| then data[i] else 0 }

  // Three bytes from 3 * b on, cut into four times six bits.
  function SixBits(data: Bytes, b: nat, j: nat): (d: nat)
    ensures d < 64
  {
    var n := Three(ByteAt(data, 3 * b), ByteAt(data, 3 * b + 1), ByteAt(data, 3 * b + 2));
    if j == 0 then n / 0x4_0000 % 64 else if j == 1 then n / 0x1000 % 64 else if j == 2 then n / 64 % 64 else n % 64
  }

  lemma LetterStands(d: nat)
    requires d < 64
    ensures StandsFor(Letter(d), d)
  {}

  /** Four letters for three bytes, six bits each, with '=' for those behind the
      last byte. */
  lemma {:induction false} EncodeLayout(data: Bytes, b: nat, j: nat)
    requires 3 * b < |data| && j < 4
    ensures 4 * b + j < |Encode(data)| == (|data| + 2) / 3 * 4
    ensures var c := Encode(data)[4 * b + j];
      if 3 * b + j > |data| then c == '=' else StandsFor(c, SixBits(data, b, j))
    decreases |data|
  {
    TextLength(data);
    hide StandsFor, SixBits, Letters, Three;
    if b > 0 {
      EncodeLayout(data[3..], b - 1, j);
      SixBitsLater(data, b, j);
      OneBlockOn(data);
      assert Encode(data)[4 * b + j] == Encode(data)[4..][4 * (b - 1) + j];
    } else {
      FirstLetters(data, j);
    }
  }

  lemma {:induction false} TextLength(data: Bytes)
    ensures |Encode(data)| == (|data| + 2) / 3 * 4
    decreases |data|
  {
    hide Letters, Three;
    if |data| >= 3 {
      ThreeTells(data[0], data[1], data[2]);
      TextLength(data[3..]);
    } else if |data| > 0 {
      ThreeTells(data[0], ByteAt(data, 1), 0);
    }
  }

  lemma OneBlockOn(data: Bytes)
    requires |data| > 3
    ensures |Encode(data)| >= 4 && Encode(data)[4..] == Encode(data[3..])
  {
    hide Letters, Three;
    ThreeTells(data[0], data[1], data[2]);
  }

  lemma SixBitsLater(data: Bytes, b: nat, j: nat)
    requires b > 0 && |data| >= 3
    ensures SixBits(data[3..], b - 1, j) == SixBits(data, b, j)
  {
    hide Three;
  }

  lemma FirstLetters(data: Bytes, j: nat)
    requires |data| > 0 && j < 4
    ensures |Encode(data)| >= 4
    ensures var c := Encode(data)[j]; if j > |data| then c == '=' else StandsFor(c, SixBits(data, 0, j))
  {
    var n := Three(ByteAt(data, 0), ByteAt(data, 1), ByteAt(data, 2));
    ThreeTells(ByteAt(data, 0), ByteAt(data, 1), ByteAt(data, 2));
    assert SixBits(data, 0, j) == if j == 0 then n / 0x4_0000 else if j == 1 then n / 0x1000 % 64
                                  else if j == 2 then n / 64 % 64 else n % 64;
    LetterStands(SixBits(data, 0, j));
    hide Letter, StandsFor, Three, SixBits;
    assert Letters(n)[j] == Letter(SixBits(data, 0, j));
    hide Letters;
    FirstBlock(data, n, j);
  }

  lemma FirstBlock(data: Bytes, n: nat, j: nat)
    requires |data| > 0 && j < 4 && n == Three(ByteAt(data, 0), ByteAt(data, 1), ByteAt(data, 2)) < 0x100_0000
    ensures |Encode(data)| >= 4 && Encode(data)[j] == if j > |data| then '=' else Letters(n)[j]
  {
    hide Letters, Three;
  }

  // ---- What is decoded --------------------------------------------------

  predicate IsBase64(c: char) { c == '=' || exists d: nat :: d < 64 && StandsFor(c, d) }

  lemma IsBase64Exactly(c: char)
    ensures IsBase64(c) <==> Base64.Digit(c) >= 0
  {
    if Base64.Digit(c) >= 0 && c != '=' { assert StandsFor(c, ValueOf(c)); }
  }

  /** White space counts for nothing, and what is left is decoded exactly when it
      is whole blocks of four letters. */
  lemma {:induction false} DecodesExactly(text: string)
    ensures var s := Stripped(text);
      && (forall i :: 0 <= i < |s| ==> !IsBlank(s[i]))
      && (Decode(text).Some? <==> |s| % 4 == 0 && forall i :: 0 <= i < |s| ==> IsBase64(s[i]))
  {
    hide Block, IsBase64, IsBlank;
    var s := Stripped(text);
    StrippedHasNone(text);
    if |s| % 4 == 0 { BlocksDecode(s, PadOf(s)); }
  }

  lemma {:induction false} StrippedHasNone(s: string)
    ensures forall i :: 0 <= i < |Stripped(s)| ==> !IsBlank(Stripped(s)[i])
    decreases |s|
  {
    hide IsBlank;
    if |s| > 0 { StrippedHasNone(s[..|s| - 1]); }
  }

  lemma {:induction false} BlocksDecode(s: string, pad: nat)
    requires |s| % 4 == 0
    ensures DecodeBlocks(s, pad).Some? <==> forall i :: 0 <= i < |s| ==> IsBase64(s[i])
    decreases |s|
  {
    hide Block, IsBase64;
    if |s| > 0 {
      BlocksDecode(s[4..], pad);
      BlockDecodes(s[..4], if |s| == 4 then pad else 0);
      assert forall i :: 0 <= i < |s| - 4 ==> s[i + 4] == s[4..][i];
      assert s[0] == s[..4][0] && s[1] == s[..4][1] && s[2] == s[..4][2] && s[3] == s[..4][3];
      if forall i :: 0 <= i < |s[4..]| ==> IsBase64(s[4..][i]) {
        forall i | 4 <= i < |s| ensures IsBase64(s[i]) { assert s[i] == s[4..][i - 4]; }
      }
    }
  }

  lemma BlockDecodes(s: string, drop: nat)
    requires |s| == 4
    ensures Block(s, drop).Some? <==> IsBase64(s[0]) && IsBase64(s[1]) && IsBase64(s[2]) && IsBase64(s[3])
  {
    hide Base64.Digit, IsBase64, Joined;
    IsBase64Exactly(s[0]);
    IsBase64Exactly(s[1]);
    IsBase64Exactly(s[2]);
    IsBase64Exactly(s[3]);
  }

  /** A blank anywhere changes nothing. */
  lemma {:induction false} BlankIsDropped(a: string, c: char, b: string)
    requires c == ' ' || c == '\n' || c == '\r' || c == '\t'
    ensures Decode(a + [c] + b) == Decode(a + b)
  {
    StrippedDrops(a, c, b);
  }

  lemma {:induction false} StrippedDrops(a: string, c: char, b: string)
    requires IsBlank(c)
    ensures Stripped(a + [c] + b) == Stripped(a + b)
    decreases |b|
  {
    var all := a + [c] + b;
    if |b| == 0 {
      assert all == a + [c] && all[..|all| - 1] == a && a + b == a;
    } else {
      var n := |b| - 1;
      assert all[..|all| - 1] == a + [c] + b[..n] && (a + b)[..|a| + n] == a + b[..n];
      StrippedDrops(a, c, b[..n]);
    }
  }
}
