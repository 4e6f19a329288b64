/// Topic patterns of the access policy (src/security/access.cpp) and their
/// declarative meaning.
///
/// Patterns as syntax, and what a parsed pattern means.

module GlobSyntax {
  // A byte as a number; only equality and <= are used.
  type Char = c: int | 0 <= c < 256
  type Text = seq<Char>

  const STAR: Char := 42
  const DASH: Char := 45
  const SLASH: Char := 47
  const QUERY: Char := 63
  const OPEN: Char := 91
  const BACKSLASH: Char := 92
  const CLOSE: Char := 93
  const CARET: Char := 94

  datatype Option<+T> = None | Some(value: T)
  datatype Range = Range(lo: Char, hi: Char)
  datatype Item = AnyChar | Lit(c: Char) | Class(negated: bool, ranges: seq<Range>)
  datatype Elem = Star | One(item: Item)

  // ---- Meaning ----------------------------------------------------------

  predicate InRanges(rs: seq<Range>, c: Char) {
    exists i :: 0 <= i < |rs| && rs[i].lo <= c <= rs[i].hi
  }

  predicate ItemMatches(it: Item, c: Char) {
    match it
    case AnyChar => c != SLASH
    case Lit(d) => c == d
    case Class(negated, rs) => InRanges(rs, c) != negated
  }

  /** Some way of giving each star a slash-free stretch of the name makes every
      other element match its own character. */
  predicate Matches(es: seq<Elem>, name: Text)
    decreases |es|, |name|
  {
    if es == [] then name == []
    else if es[0].Star? then
      Matches(es[1..], name) || (name != [] && name[0] != SLASH && Matches(es, name[1..]))
    else name != [] && ItemMatches(es[0].item, name[0]) && Matches(es[1..], name[1..])
  }

  predicate SlashFree(s: Text) { SLASH !in s }

  // ---- Syntax -----------------------------------------------------------

  // A possibly escaped character of a class; something must follow it.
  function GetEsc(p: Text): Option<(Char, Text)> {
    if p == [] || p[0] == DASH || p[0] == CLOSE then None
    else
      var q := if p[0] == BACKSLASH then p[1..] else p;
      if |q| < 2 then None else Some((q[0], q[1..]))
  }

  // The ranges of a class up to its closing bracket; `any` says whether one
  // was read already.
  function ClassBody(p: Text, any: bool): Option<(seq<Range>, Text)>
    decreases |p|
  {
    if p != [] && p[0] == CLOSE && any then Some(([], p[1..]))
    else
      match GetEsc(p)
      case None => None
      case Some((lo, q)) =>
        if q[0] == DASH then
          match GetEsc(q[1..])
          case None => None
          case Some((hi, q')) => Prepend(Range(lo, hi), ClassBody(q', true))
        else Prepend(Range(lo, lo), ClassBody(q, true))
  }

  function Prepend(r: Range, more: Option<(seq<Range>, Text)>): Option<(seq<Range>, Text)> {
    match more
    case None => None
    case Some((rs, rest)) => Some(([r] + rs, rest))
  }

  function NextItem(p: Text): (r: Option<(Item, Text)>)
    requires p != []
    ensures r.Some? ==> |r.value.1| < |p|
  {
    if p[0] == OPEN then
      var negated := |p| > 1 && p[1] == CARET;
      match ClassBody(if negated then p[2..] else p[1..], false)
      case None => None
      case Some((rs, rest)) =>
        ClassBodyShrinks(if negated then p[2..] else p[1..], false);
        Some((Class(negated, rs), rest))
    else if p[0] == QUERY then Some((AnyChar, p[1..]))
    else if p[0] == BACKSLASH then if |p| < 2 then None else Some((Lit(p[1]), p[2..]))
    else Some((Lit(p[0]), p[1..]))
  }

  // A chunk: no stars outside classes.
  function ParseItems(p: Text): Option<seq<Item>>
    decreases |p|
  {
    if p == [] then Some([])
    else match NextItem(p)
      case None => None
      case Some((it, rest)) =>
        match ParseItems(rest) case None => None case Some(its) => Some([it] + its)
  }

  /** The whole pattern read left to right; None is a syntax error. */
  function Parse(p: Text): Option<seq<Elem>>
    decreases |p|
  {
    if p == [] then Some([])
    else if p[0] == STAR then
      match Parse(p[1..]) case None => None case Some(es) => Some([Star] + es)
    else match NextItem(p)
      case None => None
      case Some((it, rest)) =>
        match Parse(rest) case None => None case Some(es) => Some([One(it)] + es)
  }

  lemma {:induction false} ClassBodyShrinks(p: Text, any: bool)
    ensures ClassBody(p, any).Some? ==> |ClassBody(p, any).value.1| < |p|
    decreases |p|
  {
    if !(p != [] && p[0] == CLOSE && any) && GetEsc(p).Some? {
      var q := GetEsc(p).value.1;
      if q[0] == DASH {
        if GetEsc(q[1..]).Some? { ClassBodyShrinks(GetEsc(q[1..]).value.1, true); }
      } else {
        ClassBodyShrinks(q, true);
      }
    }
  }

  // ---- Splitting a pattern at its stars ---------------------------------

  // Length of the text before the next star that is outside brackets.
  function ChunkLength(p: Text, inRange: bool): (n: nat)
    ensures n <= |p|
    decreases |p|
  {
    if p == [] then 0
    else if p[0] == BACKSLASH then (if |p| > 1 then 2 + ChunkLength(p[2..], inRange) else 1)
    else if p[0] == OPEN then 1 + ChunkLength(p[1..], true)
    else if p[0] == CLOSE then 1 + ChunkLength(p[1..], false)
    else if p[0] == STAR && !inRange then 0
    else 1 + ChunkLength(p[1..], inRange)
  }

  function Before(r: Text, t: Text): Text
    requires |t| <= |r|
  {
    r[..|r| - |t|]
  }

  lemma GetEscLocal(c: Text, t: Text)
    requires GetEsc(c + t).Some? && |GetEsc(c + t).value.1| > |t|
    ensures var (x, q) := GetEsc(c + t).value;
      GetEsc(c) == Some((x, Before(q, t))) && q == Before(q, t) + t
  {
    if c[0] == BACKSLASH {
      assert (c + t)[1..] == c[1..] + t;
      assert (c + t)[1..][1..] == c[1..][1..] + t;
    } else {
      assert (c + t)[1..] == c[1..] + t;
    }
  }

  lemma GetEscExtends(c: Text, t: Text)
    requires GetEsc(c).Some?
    ensures var (x, q) := GetEsc(c).value; GetEsc(c + t) == Some((x, q + t))
  {
    if c[0] == BACKSLASH {
      assert (c + t)[1..] == c[1..] + t;
      assert (c + t)[1..][1..] == c[1..][1..] + t;
    } else {
      assert (c + t)[1..] == c[1..] + t;
    }
  }

  // Reading a class looks no further than its closing bracket.
  lemma {:induction false} ClassBodyLocal(c: Text, t: Text, any: bool)
    requires ClassBody(c + t, any).Some? && |ClassBody(c + t, any).value.1| >= |t|
    ensures var (rs, rest) := ClassBody(c + t, any).value;
      ClassBody(c, any) == Some((rs, Before(rest, t))) && rest == Before(rest, t) + t
    decreases |c|
  {
    var p := c + t;
    ClassBodyShrinks(p, any);
    if p[0] == CLOSE && any {
      assert p[1..] == c[1..] + t;
    } else {
      var q := GetEsc(p).value.1;
      if q[0] == DASH {
        var q' := GetEsc(q[1..]).value.1;
        ClassBodyShrinks(q', true);
        GetEscLocal(c, t);
        var d := Before(q, t);
        assert q[1..] == d[1..] + t;
        GetEscLocal(d[1..], t);
        ClassBodyLocal(Before(q', t), t, true);
      } else {
        ClassBodyShrinks(q, true);
        GetEscLocal(c, t);
        ClassBodyLocal(Before(q, t), t, true);
      }
    }
  }

  lemma {:induction false} ClassBodyExtends(c: Text, t: Text, any: bool)
    requires ClassBody(c, any).Some?
    ensures var (rs, rest) := ClassBody(c, any).value; ClassBody(c + t, any) == Some((rs, rest + t))
    decreases |c|
  {
    if c[0] == CLOSE && any {
      assert (c + t)[1..] == c[1..] + t;
    } else {
      GetEscExtends(c, t);
      var q := GetEsc(c).value.1;
      if q[0] == DASH {
        assert (q + t)[1..] == q[1..] + t;
        GetEscExtends(q[1..], t);
        ClassBodyExtends(GetEsc(q[1..]).value.1, t, true);
      } else {
        ClassBodyExtends(q, t, true);
      }
    }
  }

  lemma NextItemLocal(c: Text, t: Text)
    requires c != [] && NextItem(c + t).Some? && |NextItem(c + t).value.1| >= |t|
    ensures var (it, rest) := NextItem(c + t).value;
      NextItem(c) == Some((it, Before(rest, t))) && rest == Before(rest, t) + t
  {
    var p := c + t;
    assert p[1..] == c[1..] + t;
    if p[0] == OPEN {
      if |p| > 1 && p[1] == CARET {
        ClassBodyShrinks(p[2..], false);
        assert p[2..] == c[2..] + t;
        ClassBodyLocal(c[2..], t, false);
      } else {
        ClassBodyLocal(c[1..], t, false);
      }
    } else if p[0] == BACKSLASH {
      assert p[2..] == c[2..] + t;
    }
  }

  lemma NextItemExtends(c: Text, t: Text)
    requires c != [] && NextItem(c).Some?
    ensures var (it, rest) := NextItem(c).value; NextItem(c + t) == Some((it, rest + t))
  {
    var p := c + t;
    assert p[1..] == c[1..] + t;
    if p[0] == OPEN {
      if |c| > 1 && c[1] == CARET {
        assert p[2..] == c[2..] + t;
        ClassBodyExtends(c[2..], t, false);
      } else {
        ClassBodyExtends(c[1..], t, false);
      }
    } else if p[0] == BACKSLASH {
      assert p[2..] == c[2..] + t;
    }
  }

  // Inside a class the split stays inside the brackets, as the reader does.
  lemma GetEscStaysInRange(p: Text)
    requires GetEsc(p).Some?
    ensures var q := GetEsc(p).value.1;
      ChunkLength(p, true) == |p| - |q| + ChunkLength(q, true)
  {
    if p[0] == BACKSLASH {
      assert p[1..][1..] == p[2..];
    }
  }

  lemma {:induction false} ClassBodyInStep(p: Text, any: bool)
    requires ClassBody(p, any).Some?
    ensures var rest := ClassBody(p, any).value.1;
      ChunkLength(p, true) == |p| - |rest| + ChunkLength(rest, false)
    decreases |p|
  {
    if !(p[0] == CLOSE && any) {
      GetEscStaysInRange(p);
      var q := GetEsc(p).value.1;
      if q[0] == DASH {
        GetEscStaysInRange(q[1..]);
        ClassBodyInStep(GetEsc(q[1..]).value.1, true);
      } else {
        ClassBodyInStep(q, true);
      }
    }
  }

  lemma NextItemInStep(p: Text)
    requires p != [] && p[0] != STAR && NextItem(p).Some?
    ensures var rest := NextItem(p).value.1;
      ChunkLength(p, false) == |p| - |rest| + ChunkLength(rest, false)
  {
    if p[0] == OPEN {
      if |p| > 1 && p[1] == CARET {
        assert p[1..][1..] == p[2..];
        ClassBodyInStep(p[2..], false);
      } else {
        ClassBodyInStep(p[1..], false);
      }
    }
  }

  function Ones(its: seq<Item>): (es: seq<Elem>)
    ensures |es| == |its|
  {
    seq(|its|, i requires 0 <= i < |its| => One(its[i]))
  }

  function Joined(a: Option<seq<Item>>, b: Option<seq<Elem>>): Option<seq<Elem>> {
    if a.None? || b.None? then None else Some(Ones(a.value) + b.value)
  }

  function ConsItem(it: Item, a: Option<seq<Item>>): Option<seq<Item>> {
    match a case None => None case Some(its) => Some([it] + its)
  }

  lemma JoinedCons(it: Item, a: Option<seq<Item>>, b: Option<seq<Elem>>)
    ensures Joined(ConsItem(it, a), b) ==
            match Joined(a, b) case None => None case Some(es) => Some([One(it)] + es)
  {
    if a.Some? && b.Some? {
      assert Ones([it] + a.value) == [One(it)] + Ones(a.value);
      assert [One(it)] + (Ones(a.value) + b.value) == ([One(it)] + Ones(a.value)) + b.value;
    }
  }

  // The first item of a pattern is the first item of its first chunk.
  lemma {:induction false} FirstItemOfChunk(p: Text, it: Item, rest: Text)
    requires p != [] && p[0] != STAR && NextItem(p) == Some((it, rest))
    ensures var n, m := ChunkLength(p, false), ChunkLength(rest, false);
      && n == |p| - |rest| + m && n > 0 && p[n..] == rest[m..]
      && NextItem(p[..n]) == Some((it, rest[..m]))
  {
    NextItemInStep(p);
    var n, m := ChunkLength(p, false), ChunkLength(rest, false);
    var c, t := p[..n], p[n..];
    assert p == c + t;
    NextItemLocal(c, t);
    assert Before(rest, t) == rest[..m];
  }

  lemma ParseItemsStep(c: Text, it: Item, rest: Text)
    requires c != [] && NextItem(c) == Some((it, rest))
    ensures ParseItems(c) == ConsItem(it, ParseItems(rest))
  {}

  lemma ParseStep(p: Text, it: Item, rest: Text)
    requires p != [] && p[0] != STAR && NextItem(p) == Some((it, rest))
    ensures Parse(p) == match Parse(rest) case None => None case Some(es) => Some([One(it)] + es)
  {}

  // Splitting at the stars agrees with reading left to right.
  lemma {:induction false} SplitAgreesWithParse(p: Text)
    ensures var n := ChunkLength(p, false);
      Parse(p) == Joined(ParseItems(p[..n]), Parse(p[n..]))
    decreases |p|
  {
    if p == [] || p[0] == STAR {
      var n := ChunkLength(p, false);
      assert p[n..] == p && p[..n] == [];
      JoinedNothing(Parse(p));
    } else {
      var r := NextItem(p);
      if r.Some? {
        SplitStep(p, r.value.0, r.value.1);
      } else {
        ChunkIsMalformed(p);
        assert Parse(p) == None;
      }
    }
  }

  lemma JoinedNothing(b: Option<seq<Elem>>)
    ensures Joined(Some([]), b) == b
  {
    if b.Some? { assert Ones([]) + b.value == b.value; }
  }

  lemma {:induction false} SplitStep(p: Text, it: Item, rest: Text)
    requires p != [] && p[0] != STAR && NextItem(p) == Some((it, rest)) && |rest| < |p|
    ensures var n := ChunkLength(p, false);
      Parse(p) == Joined(ParseItems(p[..n]), Parse(p[n..]))
    decreases |p|, 0
  {
    var n, m := ChunkLength(p, false), ChunkLength(rest, false);
    FirstItemOfChunk(p, it, rest);
    ParseItemsStep(p[..n], it, rest[..m]);
    ParseStep(p, it, rest);
    SplitAgreesWithParse(rest);
    JoinedCons(it, ParseItems(rest[..m]), Parse(p[n..]));
  }

  lemma {:induction false} ChunkIsMalformed(p: Text)
    requires p != [] && p[0] != STAR && NextItem(p).None?
    ensures var n := ChunkLength(p, false);
      ParseItems(p[..n]) == None && (n < |p| ==> p[n] == STAR)
  {
    var n := ChunkLength(p, false);
    ChunkEndsAtStar(p, false);
    assert p[..n] + p[n..] == p;
    if NextItem(p[..n]).Some? {
      NextItemExtends(p[..n], p[n..]);
    }
  }

  lemma {:induction false} ChunkEndsAtStar(p: Text, inRange: bool)
    ensures var n := ChunkLength(p, inRange); n < |p| ==> p[n] == STAR
    decreases |p|
  {
    if p == [] || (p[0] == STAR && !inRange) {
    } else if p[0] == BACKSLASH {
      if |p| > 1 { ChunkEndsAtStar(p[2..], inRange); }
    } else {
      ChunkEndsAtStar(p[1..], if p[0] == OPEN then true else if p[0] == CLOSE then false else inRange);
    }
  }
}
