module GlobGrammar {
  // What a topic pattern says as it is written (include/dds/security/access.hpp,
  // src/security/access.cpp): its pieces in their literal characters, what the
  // parser makes of them, and which stretches of a topic each of them takes.

  import opened GlobSyntax
  import opened GlobMatcher

  // A character as it stands in a pattern: bare, or behind a backslash.
  datatype Letter = Bare(c: Char) | Escaped(c: Char)
  datatype Span = Single(at: Letter) | Between(lo: Letter, hi: Letter)
  datatype Piece = AnyStretch | AnyOne | Only(letter: Letter) | Bracket(negated: bool, spans: seq<Span>)

  function Byte(c: char): Char
    requires c as int < 256
  {
    c as int
  }

  // ---- As it is written -------------------------------------------------

  function LetterText(l: Letter): (t: Text)
    ensures |t| > 0
  {
    match l
    case Bare(c) => [c]
    case Escaped(c) => [Byte('\\'), c]
  }

  function SpanText(s: Span): Text {
    match s
    case Single(at) => LetterText(at)
    case Between(lo, hi) => LetterText(lo) + ([Byte('-')] + LetterText(hi))
  }

  function SpansText(ss: seq<Span>): Text {
    if |ss| == 0 then [] else SpanText(ss[0]) + SpansText(ss[1..])
  }

  function PieceText(p: Piece): Text {
    match p
    case AnyStretch => [Byte('*')]
    case AnyOne => [Byte('?')]
    case Only(l) => LetterText(l)
    case Bracket(negated, ss) =>
      (if negated then [Byte('['), Byte('^')] else [Byte('[')]) + (SpansText(ss) + [Byte(']')])
  }

  function PatternText(ps: seq<Piece>): Text {
    if |ps| == 0 then [] else PieceText(ps[0]) + PatternText(ps[1..])
  }

  // Inside a class these must stand behind a backslash...
  predicate LetterOk(l: Letter) {
    l.Bare? ==> l.c != Byte('-') && l.c != Byte(']') && l.c != Byte('\\')
  }

  predicate SpanOk(s: Span) {
    match s
    case Single(at) => LetterOk(at)
    case Between(lo, hi) => LetterOk(lo) && LetterOk(hi)
  }

  predicate SpansOk(ss: seq<Span>) { forall i :: 0 <= i < |ss| ==> SpanOk(ss[i]) }

  // ...and outside of one these.
  predicate PieceOk(p: Piece) {
    match p
    case Only(Bare(c)) => c != Byte('*') && c != Byte('?') && c != Byte('[') && c != Byte('\\')
    case Bracket(negated, ss) => |ss| > 0 && SpansOk(ss) && (!negated ==> SpanText(ss[0])[0] != Byte('^'))
    case _ => true
  }

  predicate PatternOk(ps: seq<Piece>) { forall i :: 0 <= i < |ps| ==> PieceOk(ps[i]) }

  // ---- What it says -----------------------------------------------------

  function Low(s: Span): Char { if s.Single? then s.at.c else s.lo.c }

  function High(s: Span): Char { if s.Single? then s.at.c else s.hi.c }

  predicate Within(ss: seq<Span>, c: Char) {
    exists i :: 0 <= i < |ss| && Low(ss[i]) <= c <= High(ss[i])
  }

  // The stretches of a topic a piece takes.
  predicate Takes(p: Piece, t: Text) {
    match p
    case AnyStretch => Byte('/') !in t
    case AnyOne => |t| == 1 && t[0] != Byte('/')
    case Only(l) => t == [l.c]
    case Bracket(negated, ss) => |t| == 1 && (Within(ss, t[0]) <==> !negated)
  }

  function Join(ts: seq<Text>): Text {
    if |ts| == 0 then [] else ts[0] + Join(ts[1..])
  }

  /** The topic cut into one stretch a piece. */
  predicate CutsInto(ps: seq<Piece>, name: Text, ts: seq<Text>) {
    |ts| == |ps| && Join(ts) == name && forall i :: 0 <= i < |ps| ==> Takes(ps[i], ts[i])
  }

  // ---- The parser reads what is written ---------------------------------

  function Ranges(ss: seq<Span>): seq<Range> {
    if |ss| == 0 then [] else [Range(Low(ss[0]), High(ss[0]))] + Ranges(ss[1..])
  }

  function Meant(p: Piece): Elem {
    match p
    case AnyStretch => Star
    case AnyOne => One(AnyChar)
    case Only(l) => One(Lit(l.c))
    case Bracket(negated, ss) => One(Class(negated, Ranges(ss)))
  }

  function AllMeant(ps: seq<Piece>): seq<Elem> {
    if |ps| == 0 then [] else [Meant(ps[0])] + AllMeant(ps[1..])
  }

  lemma LetterReads(l: Letter, z: Text)
    requires LetterOk(l) && |z| > 0
    ensures GetEsc(LetterText(l) + z) == Some((l.c, z))
    ensures (LetterText(l) + z)[0] != DASH && (LetterText(l) + z)[0] != CLOSE
  {
    var p := LetterText(l) + z;
    if l.Escaped? {
      assert p[1..] == [l.c] + z;
      assert p[1..][1..] == z;
    } else {
      assert p[1..] == z;
    }
  }

  lemma {:induction false} SpansRead(ss: seq<Span>, z: Text, any: bool)
    requires SpansOk(ss) && (any || |ss| > 0)
    ensures ClassBody(SpansText(ss) + ([CLOSE] + z), any) == Some((Ranges(ss), z))
    ensures (SpansText(ss) + ([CLOSE] + z))[0] != DASH
    decreases |ss|
  {
    if |ss| == 0 {
      NoSpanReads(z);
    } else {
      hide *;
      var end := [CLOSE] + z;
      SpansCons(ss[0], ss[1..]);
      assert ss == [ss[0]] + ss[1..];
      SpansRead(ss[1..], z, true);
      Regroup(SpanText(ss[0]), SpansText(ss[1..]), end);
      SpanReads(ss[0], SpansText(ss[1..]) + end, any);
      Prepended(Range(Low(ss[0]), High(ss[0])), Ranges(ss[1..]), z);
    }
  }

  lemma NoSpanReads(z: Text)
    ensures SpansText([]) + ([CLOSE] + z) == [CLOSE] + z
    ensures ClassBody([CLOSE] + z, true) == Some((Ranges([]), z))
  {
    assert ([CLOSE] + z)[1..] == z;
  }

  lemma SpansCons(s: Span, more: seq<Span>)
    ensures SpansText([s] + more) == SpanText(s) + SpansText(more)
    ensures Ranges([s] + more) == [Range(Low(s), High(s))] + Ranges(more)
    ensures SpansOk([s] + more) <==> SpanOk(s) && SpansOk(more)
  {
    var ss := [s] + more;
    assert ss[0] == s && ss[1..] == more;
    assert forall i :: 0 <= i < |more| ==> ss[i + 1] == more[i];
  }

  lemma Prepended(r: Range, rs: seq<Range>, z: Text)
    ensures Prepend(r, Some((rs, z))) == Some(([r] + rs, z))
  {}

  lemma Regroup(a: Text, b: Text, c: Text)
    ensures (a + b) + c == a + (b + c)
  {}

  lemma SpanReads(s: Span, y: Text, any: bool)
    requires SpanOk(s) && |y| > 0 && y[0] != DASH
    ensures ClassBody(SpanText(s) + y, any) == Prepend(Range(Low(s), High(s)), ClassBody(y, true))
    ensures (SpanText(s) + y)[0] != DASH
  {
    hide LetterText, GetEsc;
    match s
    case Single(at) => LetterReads(at, y);
    case Between(lo, hi) =>
      var x := [DASH] + (LetterText(hi) + y);
      assert SpanText(s) + y == LetterText(lo) + x;
      assert x[1..] == LetterText(hi) + y;
      LetterReads(lo, x);
      LetterReads(hi, y);
  }

  lemma {:induction false} PieceReads(p: Piece, z: Text)
    requires PieceOk(p)
    ensures var t := PieceText(p) + z;
      && |t| > 0 && (p.AnyStretch? ==> t[0] == STAR && t[1..] == z)
      && (!p.AnyStretch? ==> t[0] != STAR && NextItem(t) == Some((Meant(p).item, z)))
  {
    var t := PieceText(p) + z;
    match p
    case AnyStretch =>
    case AnyOne =>
    case Only(l) =>
      if l.Escaped? { assert t[2..] == z; } else { assert t[1..] == z; }
    case Bracket(_, _) => BracketReads(p, z);
  }

  lemma {:induction false} BracketReads(p: Piece, z: Text)
    requires PieceOk(p) && p.Bracket?
    ensures var t := PieceText(p) + z; t[0] == OPEN && NextItem(t) == Some((Meant(p).item, z))
  {
    hide ClassBody, Ranges, SpansOk, SpansText, SpanText;
    var t, ss := PieceText(p) + z, p.spans;
    SpansRead(ss, z, false);
    FirstOfSpans(ss, [CLOSE] + z);
    var body := SpansText(ss) + ([CLOSE] + z);
    Regroup(SpansText(ss), [CLOSE], z);
    var head := if p.negated then [OPEN, CARET] else [OPEN];
    Regroup(head, SpansText(ss) + [CLOSE], z);
    assert t == head + body;
    if p.negated { assert t[2..] == body; } else { assert t[1..] == body; }
  }

  /** Every pattern is read as it is written: star, question mark, letters with
      or without a backslash, classes with their ranges and their negation. */
  lemma {:induction false} ReadAsWritten(ps: seq<Piece>)
    requires PatternOk(ps)
    ensures Parse(PatternText(ps)) == Some(AllMeant(ps))
    decreases |ps|
  {
    hide NextItem, PieceText;
    if |ps| > 0 {
      PieceReads(ps[0], PatternText(ps[1..]));
      ReadAsWritten(ps[1..]);
    }
  }

  // ---- What the parser reads was written so -----------------------------

  lemma LetterWritten(p: Text) returns (l: Letter)
    requires GetEsc(p).Some?
    ensures LetterOk(l) && l.c == GetEsc(p).value.0 && p == LetterText(l) + GetEsc(p).value.1
  {
    if p[0] == BACKSLASH {
      l := Escaped(p[1]);
      assert p == [p[0], p[1]] + p[1..][1..];
    } else {
      l := Bare(p[0]);
      assert p == [p[0]] + p[1..];
    }
  }

  lemma {:induction false} SpansWritten(p: Text, any: bool) returns (ss: seq<Span>)
    requires ClassBody(p, any).Some?
    ensures SpansOk(ss) && (any || |ss| > 0)
    ensures Ranges(ss) == ClassBody(p, any).value.0 && p == SpansText(ss) + ([CLOSE] + ClassBody(p, any).value.1)
    decreases |p|
  {
    if p != [] && p[0] == CLOSE && any {
      ss := [];
      assert p == SpansText(ss) + ([CLOSE] + p[1..]);
    } else {
      var first, q := SpanWritten(p, any);
      hide *;
      var more := SpansWritten(q, true);
      ss := [first] + more;
      SpansCons(first, more);
      var (rs, z) := ClassBody(q, true).value;
      Prepended(Range(Low(first), High(first)), rs, z);
      Regroup(SpanText(first), SpansText(more), [CLOSE] + z);
    }
  }

  lemma {:induction false} SpanWritten(p: Text, any: bool) returns (s: Span, q: Text)
    requires ClassBody(p, any).Some? && !(p != [] && p[0] == CLOSE && any)
    ensures SpanOk(s) && p == SpanText(s) + q && |q| < |p|
    ensures ClassBody(q, true).Some? && ClassBody(p, any) == Prepend(Range(Low(s), High(s)), ClassBody(q, true))
  {
    hide LetterText, GetEsc, LetterOk;
    var lo := LetterWritten(p);
    q := GetEsc(p).value.1;
    GetEscShrinks(p);
    s := Single(lo);
    if q[0] == DASH {
      var hi := LetterWritten(q[1..]);
      GetEscShrinks(q[1..]);
      s := Between(lo, hi);
      assert q == [DASH] + (LetterText(hi) + GetEsc(q[1..]).value.1);
      q := GetEsc(q[1..]).value.1;
    }
  }

  lemma GetEscShrinks(p: Text)
    requires GetEsc(p).Some?
    ensures 0 < |GetEsc(p).value.1| < |p|
  {}

  lemma {:induction false} PieceWritten(p: Text) returns (r: Piece)
    requires p != [] && p[0] != STAR && NextItem(p).Some?
    ensures PieceOk(r) && Meant(r) == One(NextItem(p).value.0) && p == PieceText(r) + NextItem(p).value.1
  {
    if p[0] == OPEN {
      r := BracketWritten(p);
    } else if p[0] == QUERY {
      r := AnyOne;
      assert p == [p[0]] + p[1..];
    } else if p[0] == BACKSLASH {
      r := Only(Escaped(p[1]));
      assert p == [p[0], p[1]] + p[2..];
    } else {
      r := Only(Bare(p[0]));
      assert p == [p[0]] + p[1..];
    }
  }

  lemma {:induction false} BracketWritten(p: Text) returns (r: Piece)
    requires p != [] && p[0] == OPEN && NextItem(p).Some?
    ensures PieceOk(r) && Meant(r) == One(NextItem(p).value.0) && p == PieceText(r) + NextItem(p).value.1
  {
    hide ClassBody, Ranges, SpansOk, SpansText, SpanText;
    var negated := |p| > 1 && p[1] == CARET;
    var body := if negated then p[2..] else p[1..];
    var ss := SpansWritten(body, false);
    r := Bracket(negated, ss);
    var z := NextItem(p).value.1;
    FirstOfSpans(ss, [CLOSE] + z);
    var head := if negated then [OPEN, CARET] else [OPEN];
    assert p == head + body;
    Regroup(SpansText(ss), [CLOSE], z);
    Regroup(head, SpansText(ss) + [CLOSE], z);
  }

  lemma FirstOfSpans(ss: seq<Span>, z: Text)
    requires |ss| > 0
    ensures |SpanText(ss[0])| > 0 && |SpansText(ss) + z| > 0 && (SpansText(ss) + z)[0] == SpanText(ss[0])[0]
  {}

  /** Nothing else is read: a pattern parses exactly when it is written in these
      pieces, and then to what they say. */
  lemma {:induction false} ParsesAsWritten(p: Text, es: seq<Elem>)
    ensures Parse(p) == Some(es) <==> exists ps :: PatternOk(ps) && PatternText(ps) == p && AllMeant(ps) == es
  {
    forall ps | PatternOk(ps) && PatternText(ps) == p ensures Parse(p) == Some(AllMeant(ps)) { ReadAsWritten(ps); }
    if Parse(p) == Some(es) { var ps := PatternWritten(p); }
  }

  lemma {:induction false} PatternWritten(p: Text) returns (ps: seq<Piece>)
    requires Parse(p).Some?
    ensures PatternOk(ps) && PatternText(ps) == p && AllMeant(ps) == Parse(p).value
    decreases |p|
  {
    hide NextItem, PieceText;
    if p == [] {
      ps := [];
    } else if p[0] == STAR {
      var more := PatternWritten(p[1..]);
      ps := [AnyStretch] + more;
      assert ps[1..] == more;
      assert p == [STAR] + p[1..];
      StarText();
    } else {
      var r := PieceWritten(p);
      var more := PatternWritten(NextItem(p).value.1);
      ps := [r] + more;
      assert ps[1..] == more;
    }
  }

  lemma StarText()
    ensures PieceText(AnyStretch) == [STAR]
  {}

  // ---- Every meaning can be written -------------------------------------

  function Quoted(rs: seq<Range>): seq<Span> {
    if |rs| == 0 then [] else [Between(Escaped(rs[0].lo), Escaped(rs[0].hi))] + Quoted(rs[1..])
  }

  function Spelt(e: Elem): Piece {
    match e
    case Star => AnyStretch
    case One(AnyChar) => AnyOne
    case One(Lit(c)) => Only(Escaped(c))
    case One(Class(negated, rs)) => Bracket(negated, Quoted(rs))
  }

  // A pattern with this meaning.
  function Show(es: seq<Elem>): seq<Piece> {
    if |es| == 0 then [] else [Spelt(es[0])] + Show(es[1..])
  }

  // No class without a range.
  predicate Sayable(es: seq<Elem>) {
    forall i :: 0 <= i < |es| && es[i].One? && es[i].item.Class? ==> |es[i].item.ranges| > 0
  }

  lemma {:induction false} QuotedIsOk(rs: seq<Range>)
    ensures SpansOk(Quoted(rs)) && Ranges(Quoted(rs)) == rs
    decreases |rs|
  {
    if |rs| > 0 {
      QuotedIsOk(rs[1..]);
      SpansCons(Between(Escaped(rs[0].lo), Escaped(rs[0].hi)), Quoted(rs[1..]));
      assert rs == [rs[0]] + rs[1..];
    }
  }

  lemma {:induction false} SpeltIsOk(e: Elem)
    ensures Meant(Spelt(e)) == e
    ensures PieceOk(Spelt(e)) <==> !(e.One? && e.item.Class? && |e.item.ranges| == 0)
  {
    if e.One? && e.item.Class? {
      QuotedIsOk(e.item.ranges);
      RangesAt(Quoted(e.item.ranges));
    }
  }

  /** Each sequence of stars, question marks, letters and classes is the meaning
      of a pattern, exactly when none of its classes is empty. */
  lemma {:induction false} ShownReadsBack(es: seq<Elem>)
    ensures AllMeant(Show(es)) == es
    ensures PatternOk(Show(es)) <==> Sayable(es)
    ensures Sayable(es) ==> Parse(PatternText(Show(es))) == Some(es)
    decreases |es|
  {
    hide PieceOk, Meant, Spelt, Parse, PatternText;
    if |es| > 0 {
      var e, more := es[0], es[1..];
      SpeltIsOk(e);
      ShownReadsBack(more);
      var ps := Show(es);
      assert ps[0] == Spelt(e) && ps[1..] == Show(more);
      assert es == [e] + more;
      assert forall i :: 0 <= i < |more| ==> es[i + 1] == more[i];
      assert forall i :: 0 <= i < |ps| - 1 ==> ps[i + 1] == Show(more)[i];
    }
    if Sayable(es) { ReadAsWritten(Show(es)); }
  }

  // ---- The matcher means what is written --------------------------------

  lemma {:induction false} RangesAt(ss: seq<Span>)
    ensures |Ranges(ss)| == |ss|
    ensures forall i :: 0 <= i < |ss| ==> Ranges(ss)[i] == Range(Low(ss[i]), High(ss[i]))
    decreases |ss|
  {
    if |ss| > 0 { RangesAt(ss[1..]); }
  }

  lemma {:induction false} WithinIsInRanges(ss: seq<Span>, c: Char)
    ensures InRanges(Ranges(ss), c) <==> Within(ss, c)
  {
    RangesAt(ss);
    if InRanges(Ranges(ss), c) {
      var i :| 0 <= i < |ss| && Ranges(ss)[i].lo <= c <= Ranges(ss)[i].hi;
      assert Low(ss[i]) <= c <= High(ss[i]);
    }
    if Within(ss, c) {
      var i :| 0 <= i < |ss| && Low(ss[i]) <= c <= High(ss[i]);
      assert Ranges(ss)[i].lo <= c <= Ranges(ss)[i].hi;
    }
  }

  lemma {:induction false} TakesOne(p: Piece, c: Char)
    requires !p.AnyStretch?
    ensures Takes(p, [c]) <==> ItemMatches(Meant(p).item, c)
  {
    if p.Bracket? { WithinIsInRanges(p.spans, c); }
  }

  lemma TakenIsOne(p: Piece, t: Text)
    requires !p.AnyStretch? && Takes(p, t)
    ensures |t| == 1 && t == [t[0]]
  {}

  lemma {:induction false} CutsOneMore(p: Piece, ps: seq<Piece>, t: Text, name: Text, ts: seq<Text>)
    requires Takes(p, t) && CutsInto(ps, name, ts)
    ensures CutsInto([p] + ps, t + name, [t] + ts)
  {
    hide Takes;
    assert ([t] + ts)[1..] == ts;
  }

  lemma {:induction false} CutsRest(ps: seq<Piece>, name: Text, ts: seq<Text>)
    requires |ps| > 0 && CutsInto(ps, name, ts)
    ensures Takes(ps[0], ts[0]) && CutsInto(ps[1..], Join(ts[1..]), ts[1..])
    ensures name == ts[0] + Join(ts[1..])
  {
    hide Takes;
  }

  /** The meaning of a pattern is a cut of the topic into one stretch a piece. */
  lemma {:induction false} MeaningIsCut(ps: seq<Piece>, name: Text)
    ensures Matches(AllMeant(ps), name) <==> exists ts :: CutsInto(ps, name, ts)
    decreases |ps|
  {
    if Matches(AllMeant(ps), name) { var ts := FindCut(ps, name); }
    forall ts | CutsInto(ps, name, ts) ensures Matches(AllMeant(ps), name) { CutMatches(ps, name, ts); }
  }

  lemma {:induction false} FindCut(ps: seq<Piece>, name: Text) returns (ts: seq<Text>)
    requires Matches(AllMeant(ps), name)
    ensures CutsInto(ps, name, ts)
    decreases |ps|
  {
    hide CutsInto, Takes, ItemMatches;
    if |ps| == 0 {
      ts := [];
      NoCut();
    } else {
      var es := AllMeant(ps[1..]);
      assert AllMeant(ps)[1..] == es;
      assert [ps[0]] + ps[1..] == ps;
      var i: nat;
      if ps[0].AnyStretch? {
        assert AllMeant(ps) == [Star] + es;
        StarMeaning(es, name);
        i :| 0 <= i <= |name| && SlashFree(name[..i]) && Matches(es, name[i..]);
        StretchTaken(name[..i]);
      } else {
        TakesOne(ps[0], name[0]);
        i := 1;
        assert name[..1] == [name[0]];
      }
      var more := FindCut(ps[1..], name[i..]);
      CutsOneMore(ps[0], ps[1..], name[..i], name[i..], more);
      ts := [name[..i]] + more;
      CutAt(name, i);
    }
  }

  lemma CutAt(name: Text, i: nat)
    requires i <= |name|
    ensures name == name[..i] + name[i..]
  {}

  lemma NoCut()
    ensures CutsInto([], [], [])
  {}

  lemma StretchTaken(t: Text)
    ensures Takes(AnyStretch, t) <==> SlashFree(t)
  {}

  lemma {:induction false} CutMatches(ps: seq<Piece>, name: Text, ts: seq<Text>)
    requires CutsInto(ps, name, ts)
    ensures Matches(AllMeant(ps), name)
    decreases |ps|
  {
    if |ps| > 0 {
      hide CutsInto, Takes, ItemMatches;
      CutsRest(ps, name, ts);
      var es, t, rest := AllMeant(ps[1..]), ts[0], Join(ts[1..]);
      CutMatches(ps[1..], rest, ts[1..]);
      assert AllMeant(ps)[1..] == es;
      assert name[|t|..] == rest && name[..|t|] == t;
      if ps[0].AnyStretch? {
        assert AllMeant(ps) == [Star] + es;
        StretchTaken(t);
        StarMeaning(es, name);
      } else {
        TakenIsOne(ps[0], t);
        TakesOne(ps[0], t[0]);
      }
    }
  }

  /** What the matcher answers for a pattern as it is written: a match is always
      a cut of the topic into stretches its pieces take, and every such topic
      matches where greed is harmless. */
  lemma {:induction false} MatcherFollowsThePattern(ps: seq<Piece>, name: Text)
    requires PatternOk(ps)
    ensures !Glob(PatternText(ps), name).malformed
    ensures Glob(PatternText(ps), name).matched ==> exists ts :: CutsInto(ps, name, ts)
    ensures GreedIsHarmless(PatternText(ps)) ==>
            (Glob(PatternText(ps), name).matched <==> exists ts :: CutsInto(ps, name, ts))
  {
    hide Glob, GreedIsHarmless, Matches, CutsInto, Parse;
    var p := PatternText(ps);
    ReadAsWritten(ps);
    MeaningIsCut(ps, name);
    MalformedIsThePatterns(p, name);
    if Glob(p, name).matched { MatchIsSound(p, name); }
    if GreedIsHarmless(p) { HarmlessIsExact(p, name); }
  }

  /** A class alone matches exactly the characters between the ends of one of its
      ranges, or with the caret exactly the others. */
  lemma {:induction false} ClassMeansItsRanges(negated: bool, ss: seq<Span>, c: Char)
    requires PieceOk(Bracket(negated, ss))
    ensures Glob(PatternText([Bracket(negated, ss)]), [c]).matched <==>
            ((exists i :: 0 <= i < |ss| && Low(ss[i]) <= c <= High(ss[i])) <==> !negated)
  {
    var p := Bracket(negated, ss);
    BracketTakes(negated, ss, c);
    hide Glob, GreedIsHarmless, CutsInto, Takes, PatternText, PieceOk;
    assert PatternOk([p]);
    MatcherFollowsThePattern([p], [c]);
    OnePieceIsHarmless(p);
    OnePieceCuts(p, [c]);
  }

  lemma BracketTakes(negated: bool, ss: seq<Span>, c: Char)
    ensures Takes(Bracket(negated, ss), [c]) <==>
            ((exists i :: 0 <= i < |ss| && Low(ss[i]) <= c <= High(ss[i])) <==> !negated)
  {}

  lemma {:induction false} OnePieceIsHarmless(p: Piece)
    requires PieceOk(p)
    ensures GreedIsHarmless(PatternText([p]))
  {
    ReadAsWritten([p]);
    assert |AllMeant([p])| == 1;
  }

  lemma {:induction false} OnePieceCuts(p: Piece, t: Text)
    ensures (exists ts :: CutsInto([p], t, ts)) <==> Takes(p, t)
  {
    hide Takes;
    if Takes(p, t) {
      NoCut();
      CutsOneMore(p, [], t, [], []);
      assert [p] + [] == [p] && t + [] == t;
    }
    forall ts | CutsInto([p], t, ts) ensures Takes(p, t) {
      CutsRest([p], t, ts);
      assert |Join(ts[1..])| == 0;
      assert t == ts[0];
    }
  }
}
