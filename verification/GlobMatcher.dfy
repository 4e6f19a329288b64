module GlobMatcher {
  // The greedy matcher of topic patterns (src/security/access.cpp), without
  // backtracking over earlier stars, against the meaning of a pattern.
  //
  // The matcher, and why its greed is harmless.

  import opened GlobSyntax

  datatype Outcome = Outcome(matched: bool, malformed: bool)
  datatype ChunkResult = Malformed | Fails | Leaves(rest: Text)

  predicate PrefixMatches(its: seq<Item>, s: Text) {
    |its| <= |s| && forall i :: 0 <= i < |its| ==> ItemMatches(its[i], s[i])
  }

  function Rest(its: seq<Item>, s: Text): Text
    requires |its| <= |s|
  {
    s[|its|..]
  }

  // One chunk against the front of s, `failed` if something before it failed.
  function Resume(chunk: Text, s: Text, failed: bool): ChunkResult {
    match ParseItems(chunk)
    case None => Malformed
    case Some(its) => if !failed && PrefixMatches(its, s) then Leaves(Rest(its, s)) else Fails
  }

  function SkipStars(p: Text): (r: Text)
    ensures |r| <= |p| && (r != [] ==> r[0] != STAR)
    ensures p != [] && p[0] == STAR ==> |r| < |p|
    ensures p == [] || p[0] != STAR ==> r == p
  {
    if p != [] && p[0] == STAR then SkipStars(p[1..]) else p
  }

  function Chunk(p: Text): Text { SkipStars(p)[..ChunkLength(SkipStars(p), false)] }

  function After(p: Text): (r: Text)
    ensures p != [] ==> |r| < |p|
  {
    SkipStars(p)[ChunkLength(SkipStars(p), false)..]
  }

  predicate Starred(p: Text) { p != [] && p[0] == STAR }

  // A trailing star: the chunk after it is empty.
  predicate OnlyStars(p: Text) { Starred(p) && |SkipStars(p)| == 0 }

  // The first place past the start, before any slash, where the chunk fits
  // (and ends the name, if it is the last one).
  function Retry(its: seq<Item>, name: Text, last: bool): Option<Text> {
    if name == [] || name[0] == SLASH then None
    else if PrefixMatches(its, name[1..]) && (last ==> |name| - 1 == |its|) then Some(Rest(its, name[1..]))
    else Retry(its, name[1..], last)
  }

  // What is left of the name after the chunk's first acceptable place.
  function Place(star: bool, its: seq<Item>, name: Text, last: bool): Option<Text> {
    if PrefixMatches(its, name) && (last ==> |name| == |its|) then Some(Rest(its, name))
    else if star then Retry(its, name, last)
    else None
  }

  function Glob(p: Text, name: Text): Outcome
    decreases |p|
  {
    if p == [] then Outcome(name == [], false)
    else if OnlyStars(p) then Outcome(SlashFree(name), false)
    else match ParseItems(Chunk(p))
      case None => Outcome(false, true)
      case Some(its) =>
        match Place(Starred(p), its, name, |After(p)| == 0)
        case Some(left) => Glob(After(p), left)
        case None => Outcome(false, Parse(After(p)).None?)
  }

  // ---- What stars and plain elements mean -------------------------------

  lemma {:induction false} StarMeaning(es: seq<Elem>, name: Text)
    ensures Matches([Star] + es, name) <==>
            exists i :: 0 <= i <= |name| && SlashFree(name[..i]) && Matches(es, name[i..])
    decreases |name|
  {
    assert ([Star] + es)[1..] == es;
    if Matches(es, name) {
      assert name[0..] == name && SlashFree(name[..0]);
    }
    if name != [] {
      StarMeaning(es, name[1..]);
      if name[0] != SLASH && Matches([Star] + es, name[1..]) {
        var i :| 0 <= i <= |name| - 1 && SlashFree(name[1..][..i]) && Matches(es, name[1..][i..]);
        assert name[1..][i..] == name[i + 1..];
        assert name[..i + 1] == [name[0]] + name[1..][..i];
      }
      if i :| 1 <= i <= |name| && SlashFree(name[..i]) && Matches(es, name[i..]) {
        assert name[1..][..i - 1] == name[..i][1..];
        assert name[0] == name[..i][0];
        assert name[1..][i - 1..] == name[i..];
      }
    }
  }

  lemma {:induction false} StarAbsorbs(es: seq<Elem>, name: Text, i: nat)
    requires es != [] && es[0].Star? && i <= |name| && SlashFree(name[..i]) && Matches(es, name[i..])
    ensures Matches(es, name)
  {
    hide Matches;
    var x := es[1..];
    assert es == [Star] + x;
    StarMeaning(x, name[i..]);
    StarMeaning(x, name);
    var j :| 0 <= j <= |name| - i && SlashFree(name[i..][..j]) && Matches(x, name[i..][j..]);
    assert name[..i + j] == name[..i] + name[i..][..j];
    assert name[i..][j..] == name[i + j..];
  }

  lemma {:induction false} OnesMeaning(its: seq<Item>, es: seq<Elem>, name: Text)
    ensures Matches(Ones(its) + es, name) <==> PrefixMatches(its, name) && Matches(es, Rest(its, name))
    decreases |its|
  {
    if its == [] {
      assert Ones(its) + es == es && name[0..] == name;
    } else {
      var all := Ones(its) + es;
      assert all[0] == One(its[0]) && all[1..] == Ones(its[1..]) + es;
      if name != [] {
        OnesMeaning(its[1..], es, name[1..]);
        assert PrefixMatches(its, name) <==> ItemMatches(its[0], name[0]) && PrefixMatches(its[1..], name[1..]);
        if PrefixMatches(its, name) { assert name[1..][|its| - 1..] == name[|its|..]; }
      }
    }
  }

  function StarBefore(star: bool, es: seq<Elem>): seq<Elem> {
    if star then [Star] + es else es
  }

  // Several stars in a row mean one.
  lemma {:induction false} StarsMeaning(p: Text, name: Text)
    ensures Parse(p).Some? <==> Parse(SkipStars(p)).Some?
    ensures Parse(p).Some? ==>
              (Matches(Parse(p).value, name) <==> Matches(StarBefore(Starred(p), Parse(SkipStars(p)).value), name))
    decreases |p|
  {
    if Starred(p) {
      StarsMeaning(p[1..], name);
      if Parse(p).Some? {
        forall i | 0 <= i <= |name|
          ensures Matches(Parse(p[1..]).value, name[i..]) <==>
                  Matches(StarBefore(Starred(p[1..]), Parse(SkipStars(p)).value), name[i..])
        {
          StarsMeaning(p[1..], name[i..]);
        }
        StarThenStars(Parse(p[1..]).value, Starred(p[1..]), Parse(SkipStars(p)).value, name);
      }
    }
  }

  lemma {:induction false} StarThenStars(q: seq<Elem>, star: bool, b: seq<Elem>, name: Text)
    requires forall i :: 0 <= i <= |name| ==> (Matches(q, name[i..]) <==> Matches(StarBefore(star, b), name[i..]))
    ensures Matches([Star] + q, name) <==> Matches([Star] + b, name)
  {
    StarMeaning(q, name);
    StarMeaning(b, name);
    if Matches([Star] + b, name) {
      var i :| 0 <= i <= |name| && SlashFree(name[..i]) && Matches(b, name[i..]);
      StarMeaning(b, name[i..]);
      assert name[i..][0..] == name[i..] && SlashFree(name[i..][..0]);
      assert Matches(q, name[i..]);
    }
    if i :| 0 <= i <= |name| && SlashFree(name[..i]) && Matches(q, name[i..]) {
      if star { StarAbsorbs([Star] + b, name, i); }
    }
  }

  /** The name is cut so that the chunk takes part of it and `es` the rest. */
  predicate Splits(star: bool, its: seq<Item>, es: seq<Elem>, name: Text, i: int) {
    && 0 <= i <= |name| && (star || i == 0) && SlashFree(name[..i])
    && PrefixMatches(its, name[i..]) && Matches(es, Rest(its, name[i..]))
  }

  lemma {:induction false} BodyMeaning(star: bool, its: seq<Item>, es: seq<Elem>, name: Text)
    ensures Matches(StarBefore(star, Ones(its) + es), name) <==> exists i :: Splits(star, its, es, name, i)
  {
    var x := Ones(its) + es;
    forall i | 0 <= i <= |name|
      ensures Matches(x, name[i..]) <==> PrefixMatches(its, name[i..]) && Matches(es, Rest(its, name[i..]))
    {
      OnesMeaning(its, es, name[i..]);
    }
    if star {
      StarMeaning(x, name);
      if i :| 0 <= i <= |name| && SlashFree(name[..i]) && Matches(x, name[i..]) {
        assert Splits(true, its, es, name, i);
      }
    } else {
      assert name[0..] == name && SlashFree(name[..0]);
      if Matches(x, name) { assert Splits(false, its, es, name, 0); }
    }
  }

  lemma {:induction false} PatternParses(p: Text)
    requires p != []
    ensures Parse(p).Some? <==> ParseItems(Chunk(p)).Some? && Parse(After(p)).Some?
    ensures Parse(p).Some? ==>
              Parse(SkipStars(p)) == Some(Ones(ParseItems(Chunk(p)).value) + Parse(After(p)).value)
  {
    StarsMeaning(p, []);
    SplitAgreesWithParse(SkipStars(p));
  }

  // A pattern means: find a cut for its first chunk.
  lemma {:induction false} PatternMeaning(p: Text, name: Text)
    requires p != []
    ensures Parse(p).Some? <==> ParseItems(Chunk(p)).Some? && Parse(After(p)).Some?
    ensures Parse(p).Some? ==>
              (Matches(Parse(p).value, name) <==>
               exists i :: Splits(Starred(p), ParseItems(Chunk(p)).value, Parse(After(p)).value, name, i))
  {
    PatternParses(p);
    if Parse(p).Some? {
      StarsMeaning(p, name);
      BodyMeaning(Starred(p), ParseItems(Chunk(p)).value, Parse(After(p)).value, name);
    }
  }

  // ---- Greedy choice ----------------------------------------------------

  /** An acceptable place for a chunk: i characters are left to its star. */
  predicate Fits(star: bool, its: seq<Item>, name: Text, last: bool, i: int) {
    && 0 <= i <= |name| && (star || i == 0) && SlashFree(name[..i])
    && PrefixMatches(its, name[i..]) && (last ==> |name| - i == |its|)
  }

  lemma {:induction false} RetryFindsFirst(its: seq<Item>, name: Text, last: bool)
    ensures Retry(its, name, last).None? ==> forall i :: 1 <= i ==> !Fits(true, its, name, last, i)
    ensures Retry(its, name, last).Some? ==>
              exists i :: 1 <= i && Fits(true, its, name, last, i)
                          && (forall j :: 1 <= j < i ==> !Fits(true, its, name, last, j))
                          && Retry(its, name, last).value == Rest(its, name[i..])
  {
    if name == [] || name[0] == SLASH {
      forall i | 1 <= i <= |name| ensures !SlashFree(name[..i]) { assert name[..i][0] == SLASH; }
    } else {
      forall i | 1 <= i <= |name| ensures Fits(true, its, name, last, i) <==> Fits(true, its, name[1..], last, i - 1) {
        assert name[1..][i - 1..] == name[i..];
        assert name[..i] == [name[0]] + name[1..][..i - 1];
      }
      if PrefixMatches(its, name[1..]) && (last ==> |name| - 1 == |its|) {
        assert name[1..][0..] == name[1..] && SlashFree(name[1..][..0]);
        assert Fits(true, its, name, last, 1);
      } else {
        RetryFindsFirst(its, name[1..], last);
        assert name[1..][0..] == name[1..];
        assert !Fits(true, its, name[1..], last, 0);
        if Retry(its, name, last).Some? {
          var j :| 1 <= j && Fits(true, its, name[1..], last, j)
                   && (forall k :: 1 <= k < j ==> !Fits(true, its, name[1..], last, k))
                   && Retry(its, name[1..], last).value == Rest(its, name[1..][j..]);
          assert name[1..][j..] == name[j + 1..];
          assert Fits(true, its, name, last, j + 1);
        }
      }
    }
  }

  lemma {:induction false} PlaceIsFirst(star: bool, its: seq<Item>, name: Text, last: bool)
    ensures Place(star, its, name, last).None? ==> forall i :: !Fits(star, its, name, last, i)
    ensures Place(star, its, name, last).Some? ==>
              exists i :: Fits(star, its, name, last, i)
                          && (forall j :: j < i ==> !Fits(star, its, name, last, j))
                          && Place(star, its, name, last).value == Rest(its, name[i..])
  {
    assert name[0..] == name && SlashFree(name[..0]);
    if PrefixMatches(its, name) && (last ==> |name| == |its|) {
      assert Fits(star, its, name, last, 0);
    } else {
      assert !Fits(star, its, name, last, 0);
      if star { RetryFindsFirst(its, name, last); }
    }
  }

  // ---- A match is sound, and a syntax error is the pattern's alone -------

  lemma {:induction false} MalformedIsThePatterns(p: Text, name: Text)
    ensures Glob(p, name).malformed <==> Parse(p).None?
    ensures Glob(p, name).malformed ==> !Glob(p, name).matched
    decreases |p|
  {
    if OnlyStars(p) {
      LoneStar(p, name);
    } else if p != [] {
      PatternParses(p);
      if ParseItems(Chunk(p)).Some? {
        var place := Place(Starred(p), ParseItems(Chunk(p)).value, name, |After(p)| == 0);
        if place.Some? { MalformedIsThePatterns(After(p), place.value); }
      }
    }
  }

  lemma {:induction false} LoneStar(p: Text, name: Text)
    requires OnlyStars(p)
    ensures Parse(p).Some? && (Matches(Parse(p).value, name) <==> SlashFree(name))
  {
    StarsMeaning(p, name);
    StarAlone(Starred(p), Parse(SkipStars(p)).value, name);
  }

  lemma {:induction false} StarAlone(star: bool, es: seq<Elem>, name: Text)
    requires star && |es| == 0
    ensures Matches(StarBefore(star, es), name) <==> SlashFree(name)
  {
    StarMeaning(es, name);
    assert name[..|name|] == name;
    forall i | 0 <= i <= |name| ensures Matches(es, name[i..]) <==> i == |name| {}
  }

  lemma {:induction false} MatchIsSound(p: Text, name: Text)
    requires Glob(p, name).matched
    ensures Parse(p).Some? && Matches(Parse(p).value, name)
    decreases |p|
  {
    if p == [] {
    } else if OnlyStars(p) {
      LoneStar(p, name);
    } else {
      var its, last := ParseItems(Chunk(p)).value, |After(p)| == 0;
      PlaceIsFirst(Starred(p), its, name, last);
      var left := Place(Starred(p), its, name, last).value;
      MatchIsSound(After(p), left);
      PatternMeaning(p, name);
      var i :| Fits(Starred(p), its, name, last, i) && left == Rest(its, name[i..]);
      assert Splits(Starred(p), its, Parse(After(p)).value, name, i);
    }
  }

  // ---- Completeness -----------------------------------------------------

  /** A chunk slides by d: it fits at the start of s and again d places later,
      with no slash before the second place, but what follows the first place
      has one, so the next star cannot make up for the shift. */
  predicate SlidesOn(its: seq<Item>, s: Text, d: nat) {
    && 0 < d && |s| == |its| + d && SlashFree(s[..d])
    && PrefixMatches(its, s) && PrefixMatches(its, s[d..]) && !SlashFree(s[|its|..])
  }

  ghost predicate Slides(its: seq<Item>) { exists s, d :: SlidesOn(its, s, d) }

  /** `its` are the elements between the stars at i and behind them. */
  predicate ChunkBetween(es: seq<Elem>, i: nat, its: seq<Item>) {
    && i + 1 + |its| < |es| && es[i].Star? && es[i + 1 + |its|].Star?
    && es[i + 1..i + 1 + |its|] == Ones(its)
  }

  /** No chunk between two stars slides. */
  ghost predicate Rigid(es: seq<Elem>) {
    forall i: nat, its :: ChunkBetween(es, i, its) ==> !Slides(its)
  }

  // A chunk that does not slide may take the first place: the next star
  // absorbs the shift.
  lemma {:induction false} EarlierPlaceIsEnough(its: seq<Item>, es: seq<Elem>, name: Text, i: nat, g: nat)
    requires i <= g <= |name| && SlashFree(name[..g]) && !Slides(its)
    requires PrefixMatches(its, name[i..]) && PrefixMatches(its, name[g..])
    requires es != [] && es[0].Star? && Matches(es, Rest(its, name[g..]))
    ensures Matches(es, Rest(its, name[i..]))
  {
    hide Matches, Slides;
    var n, d := |its|, g - i;
    if d > 0 {
      var left := name[i + n..];
      assert name[i..][n..] == left && left[d..] == name[g..][n..] && left[..d] == name[i + n..g + n];
      ShiftIsFree(its, name, i, g);
      StarAbsorbs(es, left, d);
    }
  }

  lemma {:induction false} ShiftIsFree(its: seq<Item>, name: Text, i: nat, g: nat)
    requires i < g <= |name| && SlashFree(name[..g]) && !Slides(its)
    requires PrefixMatches(its, name[i..]) && PrefixMatches(its, name[g..])
    ensures SlashFree(name[i + |its|..g + |its|])
  {
    hide PrefixMatches, SlashFree;
    var n, d := |its|, g - i;
    PrefixIsShort(its, name[g..]);
    PrefixCut(its, name[i..], n + d);
    PrefixCut(its, name[g..], n);
    var s := name[i..g + n];
    assert s == name[i..][..n + d];
    assert s[d..] == name[g..g + n];
    assert name[g..g + n] == name[g..][..n];
    assert s[n..] == name[i + n..g + n];
    assert s[..d] == name[i..g];
    assert name[..g][i..] == name[i..g];
    SlashFreeFrom(name[..g], i);
    assert !SlidesOn(its, s, d);
  }

  lemma PrefixIsShort(its: seq<Item>, t: Text)
    requires PrefixMatches(its, t)
    ensures |its| <= |t|
  {}

  lemma PrefixCut(its: seq<Item>, t: Text, m: nat)
    requires PrefixMatches(its, t) && |its| <= m <= |t|
    ensures PrefixMatches(its, t[..m])
  {}

  lemma SlashFreeFrom(t: Text, i: nat)
    requires SlashFree(t) && i <= |t|
    ensures SlashFree(t[i..])
  {}

  // The stars before the first chunk, the chunk, and what follows it.
  predicate Parts(all: seq<Elem>, h: nat, its: seq<Item>, es: seq<Elem>) {
    && h <= |all| && (forall k :: 0 <= k < h ==> all[k].Star?)
    && all[h..] == Ones(its) + es && (es != [] ==> es[0].Star?)
  }

  lemma {:induction false} PartsAt(all: seq<Elem>, h: nat, its: seq<Item>, es: seq<Elem>)
    requires Parts(all, h, its, es)
    ensures |all| == h + |its| + |es| && es == all[h + |its|..]
    ensures forall k :: h <= k < h + |its| ==> all[k] == One(its[k - h])
  {
    assert all[h..][|its|..] == es;
    forall k | h <= k < h + |its| ensures all[k] == One(its[k - h]) { assert all[h..][k - h] == all[k]; }
  }

  lemma {:induction false} RigidParts(all: seq<Elem>, h: nat, its: seq<Item>, es: seq<Elem>)
    requires Parts(all, h, its, es) && Rigid(all)
    ensures Rigid(es)
    ensures h > 0 && es != [] ==> !Slides(its)
  {
    hide Slides;
    PartsAt(all, h, its, es);
    var n := h + |its|;
    forall i: nat, js | ChunkBetween(es, i, js) ensures !Slides(js) {
      ChunkFurtherOn(all, n, es, i, js);
    }
    if h > 0 && es != [] {
      assert all[h..n] == Ones(its) by { assert all[h..][..|its|] == all[h..n]; }
      assert ChunkBetween(all, h - 1, its);
    }
  }

  lemma ChunkFurtherOn(all: seq<Elem>, n: nat, es: seq<Elem>, i: nat, js: seq<Item>)
    requires n <= |all| && es == all[n..] && ChunkBetween(es, i, js)
    ensures ChunkBetween(all, n + i, js)
  {
    assert all[n + i + 1..n + i + 1 + |js|] == es[i + 1..i + 1 + |js|];
  }

  lemma {:induction false} PatternParts(p: Text)
    requires p != [] && Parse(p).Some?
    ensures ParseItems(Chunk(p)).Some? && Parse(After(p)).Some? && Parse(SkipStars(p)).Some?
    ensures var h := |Parse(p).value| - |Parse(SkipStars(p)).value|;
      h >= 0 && (Starred(p) <==> h > 0)
      && Parts(Parse(p).value, h, ParseItems(Chunk(p)).value, Parse(After(p)).value)
    ensures |After(p)| > 0 <==> |Parse(After(p)).value| > 0
  {
    PatternParses(p);
    StarsThenBody(p);
    ChunkEndsAtStar(SkipStars(p), false);
  }

  lemma {:induction false} StarsThenBody(p: Text)
    requires Parse(p).Some?
    ensures Parse(SkipStars(p)).Some?
    ensures var h := |Parse(p).value| - |Parse(SkipStars(p)).value|;
      && 0 <= h && Parse(p).value[h..] == Parse(SkipStars(p)).value
      && (forall k :: 0 <= k < h ==> Parse(p).value[k].Star?) && (Starred(p) <==> h > 0)
  {
    if Starred(p) {
      StarsThenBody(p[1..]);
      OneMoreStar(Parse(p[1..]).value, Parse(p).value, |Parse(p[1..]).value| - |Parse(SkipStars(p)).value|);
    }
  }

  lemma OneMoreStar(q: seq<Elem>, all: seq<Elem>, h: nat)
    requires all == [Star] + q && h <= |q| && forall k :: 0 <= k < h ==> q[k].Star?
    ensures all[h + 1..] == q[h..] && forall k :: 0 <= k < h + 1 ==> all[k].Star?
  {}

  // The greedy matcher finds a match whenever there is one.
  lemma {:induction false} MatchIsComplete(p: Text, name: Text)
    requires Parse(p).Some? && Rigid(Parse(p).value) && Matches(Parse(p).value, name)
    ensures Glob(p, name).matched
    decreases |p|
  {
    if p == [] {
    } else if OnlyStars(p) {
      LoneStar(p, name);
    } else {
      var star, last := Starred(p), |After(p)| == 0;
      PatternMeaning(p, name);
      PatternParts(p);
      var its, es := ParseItems(Chunk(p)).value, Parse(After(p)).value;
      RigidParts(Parse(p).value, |Parse(p).value| - |Parse(SkipStars(p)).value|, its, es);
      var g :| Splits(star, its, es, name, g);
      assert Fits(star, its, name, last, g);
      PlaceIsFirst(star, its, name, last);
      var i :| Fits(star, its, name, last, i)
               && (forall j :: j < i ==> !Fits(star, its, name, last, j))
               && Place(star, its, name, last).value == Rest(its, name[i..]);
      if !last && star {
        EarlierPlaceIsEnough(its, es, name, i, g);
      }
      MatchIsComplete(After(p), Rest(its, name[i..]));
    }
  }

  // ---- Where greed loses ------------------------------------------------

  function Slashes(s: Text): nat {
    if |s| == 0 then 0 else (if s[0] == SLASH then 1 else 0) + Slashes(s[1..])
  }

  // How many elements may stand for a slash: stars never do.
  function Room(es: seq<Elem>): nat {
    if |es| == 0 then 0
    else (if es[0].One? && ItemMatches(es[0].item, SLASH) then 1 else 0) + Room(es[1..])
  }

  lemma {:induction false} SlashesConcat(a: Text, b: Text)
    ensures Slashes(a + b) == Slashes(a) + Slashes(b)
  {
    if |a| == 0 {
      assert a + b == b;
    } else {
      assert (a + b)[1..] == a[1..] + b;
      SlashesConcat(a[1..], b);
    }
  }

  lemma {:induction false} SlashCounts(s: Text)
    ensures Slashes(s) > 0 <==> !SlashFree(s)
  {
    if |s| > 0 {
      SlashCounts(s[1..]);
      assert s == [s[0]] + s[1..];
    }
  }

  // A name that matches has no more slashes than the pattern has room for.
  lemma {:induction false} RoomBounds(es: seq<Elem>, name: Text)
    requires Matches(es, name)
    ensures Slashes(name) <= Room(es)
    decreases |es|, |name|
  {
    if |es| > 0 {
      if es[0].Star? {
        if Matches(es[1..], name) { RoomBounds(es[1..], name); } else { RoomBounds(es, name[1..]); }
      } else {
        RoomBounds(es[1..], name[1..]);
      }
    }
  }

  ghost predicate MatchesSomething(it: Item) { exists c :: ItemMatches(it, c) }

  /** No element is an empty class such as `[z-a]`. */
  ghost predicate Satisfiable(es: seq<Elem>) {
    forall i :: 0 <= i < |es| && es[i].One? ==> MatchesSomething(es[i].item)
  }

  // A character for an item, a slash if it may be one.
  ghost function Pick(it: Item): (c: Char)
    requires MatchesSomething(it)
    ensures ItemMatches(it, c) && (c == SLASH <==> ItemMatches(it, SLASH))
  {
    if ItemMatches(it, SLASH) then SLASH else var c :| ItemMatches(it, c); c
  }

  // A name for a pattern whose stars take nothing, with as many slashes as
  // there is room for.
  ghost function Instance(es: seq<Elem>): Text
    requires Satisfiable(es)
  {
    if |es| == 0 then []
    else
      var more := Instance(es[1..]);
      if es[0].Star? then more else [Pick(es[0].item)] + more
  }

  lemma {:induction false} InstanceSlashes(es: seq<Elem>)
    requires Satisfiable(es)
    ensures Slashes(Instance(es)) == Room(es)
  {
    if |es| > 0 {
      InstanceSlashes(es[1..]);
      if es[0].One? { assert Instance(es)[1..] == Instance(es[1..]); }
    }
  }

  lemma {:induction false} InstanceConcat(a: seq<Elem>, b: seq<Elem>)
    requires Satisfiable(a + b)
    ensures Satisfiable(a) && Satisfiable(b) && Instance(a + b) == Instance(a) + Instance(b)
  {
    hide Satisfiable;
    SatisfiablePart(a + b, 0, |a|);
    SatisfiablePart(a + b, |a|, |a + b|);
    assert (a + b)[0..|a|] == a && (a + b)[|a|..|a + b|] == b;
    if |a| == 0 {
      assert a + b == b && Instance(a) == [];
    } else {
      SatisfiablePart(a + b, 1, |a + b|);
      assert (a + b)[1..|a + b|] == a[1..] + b && (a + b)[1..] == a[1..] + b;
      InstanceConcat(a[1..], b);
    }
  }

  lemma {:induction false} InstanceOfStars(es: seq<Elem>)
    requires Satisfiable(es) && forall k :: 0 <= k < |es| ==> es[k].Star?
    ensures |Instance(es)| == 0
  {
    if |es| > 0 { InstanceOfStars(es[1..]); }
  }

  lemma {:induction false} InstanceOfOnes(its: seq<Item>)
    requires Satisfiable(Ones(its))
    ensures |Instance(Ones(its))| == |its| && PrefixMatches(its, Instance(Ones(its)))
    decreases |its|
  {
    if |its| > 0 {
      assert Ones(its)[1..] == Ones(its[1..]);
      InstanceOfOnes(its[1..]);
    }
  }

  lemma {:induction false} InstanceMatches(es: seq<Elem>, rest: seq<Elem>, z: Text)
    requires Satisfiable(es) && Matches(rest, z)
    ensures Matches(es + rest, Instance(es) + z)
    decreases |es|
  {
    if |es| == 0 {
      assert es + rest == rest && Instance(es) + z == z;
    } else {
      InstanceMatches(es[1..], rest, z);
      assert es + rest == [es[0]] + (es[1..] + rest);
      if es[0].One? {
        assert Instance(es) + z == [Pick(es[0].item)] + (Instance(es[1..]) + z);
      }
      MatchesOneMore(es[0], es[1..] + rest, Instance(es[1..]) + z);
    }
  }

  lemma {:induction false} MatchesOneMore(e: Elem, es: seq<Elem>, z: Text)
    requires Matches(es, z)
    ensures e.Star? ==> Matches([e] + es, z)
    ensures e.One? ==> forall c :: ItemMatches(e.item, c) ==> Matches([e] + es, [c] + z)
  {
    assert ([e] + es)[1..] == es;
    forall c | e.One? && ItemMatches(e.item, c) ensures Matches([e] + es, [c] + z) {
      assert ([c] + z)[1..] == z;
    }
  }

  /** The name that greed misses: the chunk is meant to stand d places into s. */
  ghost function Missed(all: seq<Elem>, i: nat, its: seq<Item>, s: Text): Text
    requires Satisfiable(all) && ChunkBetween(all, i, its)
  {
    SatisfiablePart(all, 0, i);
    SatisfiablePart(all, i + 1 + |its|, |all|);
    assert all[0..i] == all[..i] && all[i + 1 + |its|..|all|] == all[i + 1 + |its|..];
    Instance(all[..i]) + (s + Instance(all[i + 1 + |its|..]))
  }

  lemma {:induction false} MissedIsMeant(all: seq<Elem>, i: nat, its: seq<Item>, s: Text, d: nat)
    requires Satisfiable(all) && ChunkBetween(all, i, its) && SlidesOn(its, s, d)
    ensures Matches(all, Missed(all, i, its, s))
  {
    hide Matches;
    var n := i + 1 + |its|;
    var a, c := all[..i], all[n..];
    SatisfiablePart(all, 0, i);
    SatisfiablePart(all, n, |all|);
    assert all[0..i] == a && all[n..|all|] == c;
    InstanceMatchesAlone(c);
    assert all[i..] == [Star] + (Ones(its) + c) by { assert all[i..] == [all[i]] + (all[i + 1..n] + c); }
    MeantPlace(its, c, s, d, Instance(c));
    InstanceMatches(a, all[i..], s + Instance(c));
    assert a + all[i..] == all;
  }

  lemma {:induction false} InstanceMatchesAlone(es: seq<Elem>)
    requires Satisfiable(es)
    ensures Matches(es, Instance(es))
  {
    InstanceMatches(es, [], []);
    assert es + [] == es && Instance(es) + [] == Instance(es);
  }

  // The star takes d characters and the chunk the others of s.
  lemma {:induction false} MeantPlace(its: seq<Item>, c: seq<Elem>, s: Text, d: nat, x: Text)
    requires SlidesOn(its, s, d) && Matches(c, x)
    ensures Matches([Star] + (Ones(its) + c), s + x)
  {
    hide Matches;
    var name := s + x;
    assert name[d..] == s[d..] + x && name[..d] == s[..d];
    assert Rest(its, name[d..]) == x;
    assert forall k :: 0 <= k < |its| ==> name[d..][k] == s[d..][k];
    OnesMeaning(its, c, name[d..]);
    StarMeaning(Ones(its) + c, name);
  }

  // A chunk between stars is the pattern's first one, or is in the rest.
  lemma {:induction false} ChunkIsFirstOrLater(
    all: seq<Elem>, h: nat, js: seq<Item>, es: seq<Elem>, i: nat, its: seq<Item>)
    requires Parts(all, h, js, es) && ChunkBetween(all, i, its) && |its| > 0
    ensures es != []
    ensures i < h ==> i + 1 == h && its == js
    ensures i >= h ==> i >= h + |js| && ChunkBetween(es, i - h - |js|, its)
  {
    PartsAt(all, h, js, es);
    var n := h + |js|;
    forall k | 0 <= k < |its| ensures all[i + 1 + k] == One(its[k]) {
      assert all[i + 1..i + 1 + |its|][k] == all[i + 1 + k];
    }
    assert all[i + 1].One?;
    if i < h {
      assert all[n] == es[0];
      LengthsAgree(all, h, |its|, |js|);
      forall k | 0 <= k < |its| ensures its[k] == js[k] { assert all[h + k] == One(js[k]); }
    } else {
      assert all[i].Star?;
      var b := i - n;
      assert es[b + 1..b + 1 + |its|] == all[i + 1..i + 1 + |its|];
    }
  }

  lemma LengthsAgree(all: seq<Elem>, b: nat, m: nat, n: nat)
    requires b + m < |all| && b + n < |all| && all[b + m].Star? && all[b + n].Star?
    requires forall j :: b <= j < b + m ==> all[j].One?
    requires forall j :: b <= j < b + n ==> all[j].One?
    ensures m == n
  {}

  // Up to the chunk that slides, every chunk takes its own instance; there the
  // first place is taken, and a slash is left over.
  lemma {:induction false} GreedMisses(p: Text, all: seq<Elem>, i: nat, its: seq<Item>, s: Text, d: nat)
    requires Parse(p) == Some(all) && Satisfiable(all) && ChunkBetween(all, i, its) && SlidesOn(its, s, d)
    ensures !Glob(p, Missed(all, i, its, s)).matched
    decreases |p|
  {
    hide Matches, Parse, Missed;
    var name := Missed(all, i, its, s);
    SlideHasLength(its, s, d);
    SomethingParsed(p);
    PatternParts(p);
    var js, es := ParseItems(Chunk(p)).value, Parse(After(p)).value;
    var h := |all| - |Parse(SkipStars(p)).value|;
    ChunkIsFirstOrLater(all, h, js, es, i, its);
    if i < h {
      SlidingStep(all, h, its, es, i, s, d);
      FirstPlaceTaken(p, name);
      if Glob(After(p), Rest(js, name)).matched {
        MatchIsSound(After(p), Rest(js, name));
        RoomBounds(es, Rest(js, name));
      }
    } else {
      InstanceStep(all, h, js, es, i, its, s);
      FirstPlaceTaken(p, name);
      GreedMisses(After(p), es, i - h - |js|, its, s, d);
    }
  }

  lemma SlideHasLength(its: seq<Item>, s: Text, d: nat)
    requires SlidesOn(its, s, d)
    ensures |its| > 0
  {
    assert s[..|s|] == s[0..];
  }

  lemma SomethingParsed(p: Text)
    requires Parse(p).Some? && |Parse(p).value| > 0
    ensures p != []
  {}

  lemma {:induction false} FirstPlaceTaken(p: Text, name: Text)
    requires p != [] && |After(p)| > 0 && ParseItems(Chunk(p)).Some? && PrefixMatches(ParseItems(Chunk(p)).value, name)
    ensures Glob(p, name) == Glob(After(p), Rest(ParseItems(Chunk(p)).value, name))
  {}

  // The sliding chunk takes the front of s and leaves a slash too many.
  lemma {:induction false} SlidingStep(all: seq<Elem>, h: nat, its: seq<Item>, es: seq<Elem>, i: nat, s: Text, d: nat)
    requires Parts(all, h, its, es) && Satisfiable(all) && i + 1 == h
    requires ChunkBetween(all, i, its) && SlidesOn(its, s, d)
    ensures var name := Missed(all, i, its, s); PrefixMatches(its, name) && Slashes(Rest(its, name)) > Room(es)
  {
    hide Matches, Slashes, Room, SlashFree, Instance;
    PartsAt(all, h, its, es);
    var n := h + |its|;
    SatisfiablePart(all, 0, i);
    SatisfiablePart(all, n, |all|);
    assert all[0..i] == all[..i] && all[n..|all|] == es;
    InstanceOfStars(all[..i]);
    var x := Instance(es);
    assert Missed(all, i, its, s) == s + x;
    LeftOver(its, s, d, x);
    InstanceSlashes(es);
  }

  lemma {:induction false} LeftOver(its: seq<Item>, s: Text, d: nat, x: Text)
    requires SlidesOn(its, s, d)
    ensures PrefixMatches(its, s + x) && Slashes(Rest(its, s + x)) > Slashes(x)
  {
    hide Slashes, SlashFree;
    assert Rest(its, s + x) == s[|its|..] + x;
    SlashesConcat(s[|its|..], x);
    SlashCounts(s[|its|..]);
  }

  // An earlier chunk takes its instance.
  lemma {:induction false} InstanceStep(
    all: seq<Elem>, h: nat, js: seq<Item>, es: seq<Elem>, i: nat, its: seq<Item>, s: Text)
    requires Parts(all, h, js, es) && Satisfiable(all) && ChunkBetween(all, i, its)
    requires i >= h + |js| && ChunkBetween(es, i - h - |js|, its)
    ensures var name := Missed(all, i, its, s);
      PrefixMatches(js, name) && Satisfiable(es) && Rest(js, name) == Missed(es, i - h - |js|, its, s)
  {
    hide Matches, Instance;
    PartsAt(all, h, js, es);
    var n := h + |js|;
    var b := i - n;
    SatisfiablePart(all, 0, i);
    SatisfiablePart(all, n, |all|);
    assert all[0..i] == all[..i] && all[n..|all|] == es;
    assert all[i + 1 + |its|..] == es[b + 1 + |its|..];
    assert all[..i] == all[..h] + (Ones(js) + es[..b]) by {
      assert all[..i] == all[..h] + all[h..][..i - h];
      assert all[h..][..i - h] == Ones(js) + es[..b];
    }
    InstanceBehindStars(all[..h], js, es[..b]);
    var front := Instance(Ones(js));
    InstanceOfOnes(js);
    assert Missed(all, i, its, s) == front + Missed(es, b, its, s);
  }

  lemma {:induction false} InstanceBehindStars(stars: seq<Elem>, js: seq<Item>, es: seq<Elem>)
    requires Satisfiable(stars + (Ones(js) + es)) && forall k :: 0 <= k < |stars| ==> stars[k].Star?
    ensures Satisfiable(Ones(js)) && Satisfiable(es)
    ensures Instance(stars + (Ones(js) + es)) == Instance(Ones(js)) + Instance(es)
  {
    InstanceConcat(stars, Ones(js) + es);
    InstanceConcat(Ones(js), es);
    InstanceOfStars(stars);
  }

  lemma SatisfiablePart(all: seq<Elem>, i: nat, j: nat)
    requires Satisfiable(all) && i <= j <= |all|
    ensures Satisfiable(all[i..j])
  {}

  lemma {:induction false} UnsatisfiableMatchesNothing(es: seq<Elem>, name: Text)
    requires Matches(es, name)
    ensures Satisfiable(es)
    decreases |es|, |name|
  {
    if |es| > 0 {
      if es[0].Star? {
        if Matches(es[1..], name) { UnsatisfiableMatchesNothing(es[1..], name); }
        else { UnsatisfiableMatchesNothing(es, name[1..]); }
      } else {
        UnsatisfiableMatchesNothing(es[1..], name[1..]);
      }
      assert forall i :: 1 <= i < |es| ==> es[i] == es[1..][i - 1];
    }
  }

  // ---- The law ----------------------------------------------------------

  function Meaning(p: Text, name: Text): Outcome {
    Outcome(Parse(p).Some? && Matches(Parse(p).value, name), Parse(p).None?)
  }

  /** What the pattern must be for greed to be harmless. */
  ghost predicate GreedIsHarmless(p: Text) {
    Parse(p).Some? && Satisfiable(Parse(p).value) ==> Rigid(Parse(p).value)
  }

  // The answer is the pattern's meaning on every name, exactly for these
  // patterns.
  lemma {:induction false} GlobIsExact(p: Text)
    ensures (forall name :: Glob(p, name) == Meaning(p, name)) <==> GreedIsHarmless(p)
  {
    if GreedIsHarmless(p) {
      forall name ensures Glob(p, name) == Meaning(p, name) { HarmlessIsExact(p, name); }
    } else {
      var all := Parse(p).value;
      var i: nat, its :| ChunkBetween(all, i, its) && Slides(its);
      var s, d :| SlidesOn(its, s, d);
      MissedIsMeant(all, i, its, s, d);
      GreedMisses(p, all, i, its, s, d);
      assert Glob(p, Missed(all, i, its, s)) != Meaning(p, Missed(all, i, its, s));
    }
  }

  lemma {:induction false} HarmlessIsExact(p: Text, name: Text)
    requires GreedIsHarmless(p)
    ensures Glob(p, name) == Meaning(p, name)
  {
    MalformedIsThePatterns(p, name);
    if Glob(p, name).matched { MatchIsSound(p, name); }
    if Parse(p).Some? && Matches(Parse(p).value, name) {
      UnsatisfiableMatchesNothing(Parse(p).value, name);
      MatchIsComplete(p, name);
    }
  }

  // ---- Which chunks slide -----------------------------------------------

  // c may stand at position k where the chunk overlaps itself, d places on.
  predicate MayStand(its: seq<Item>, d: nat, k: nat, c: Char) {
    && (k < d ==> c != SLASH) && (k < |its| ==> ItemMatches(its[k], c))
    && (d <= k < d + |its| ==> ItemMatches(its[k - d], c))
  }

  ghost predicate SomeStands(its: seq<Item>, d: nat, k: nat) { exists c :: MayStand(its, d, k, c) }

  /** Item by item: every position of the overlap can be filled, and one behind
      the chunk can be a slash. */
  ghost predicate SlidesBy(its: seq<Item>, d: nat) {
    && 0 < d <= |its| && (forall k: nat :: k < |its| + d ==> SomeStands(its, d, k))
    && exists k: nat :: |its| <= k < |its| + d && MayStand(its, d, k, SLASH)
  }

  lemma {:induction false} SlidesItemByItem(its: seq<Item>)
    ensures Slides(its) <==> exists d: nat :: SlidesBy(its, d)
  {
    if s, d: nat :| SlidesOn(its, s, d) { SlideIsShort(its, s, d); }
    if d: nat :| SlidesBy(its, d) { FillIn(its, d); }
  }

  // Where a string that shows the slide has its slash.
  lemma {:induction false} SlideSlash(its: seq<Item>, s: Text, d: nat) returns (q: nat)
    requires SlidesOn(its, s, d)
    ensures |its| > 0 && d <= q < |its| + d && q >= |its| && s[q] == SLASH
  {
    var n := |its|;
    SlideHasLength(its, s, d);
    var k :| 0 <= k < d && s[n..][k] == SLASH;
    q := n + k;
    forall j | 0 <= j < d ensures s[j] != SLASH { assert s[..d][j] == s[j]; }
  }

  lemma {:induction false} SlideIsShort(its: seq<Item>, s: Text, d: nat)
    requires SlidesOn(its, s, d)
    ensures exists e: nat :: SlidesBy(its, e)
  {
    var n := |its|;
    var e := if d <= n then d else n;
    var q := SlideSlash(its, s, d);
    forall k: nat | k < n + e ensures SomeStands(its, e, k) {
      var at := if k < e then k else k - e + d;
      assert k < e ==> s[..d][k] == s[k];
      assert k >= e ==> s[d..][k - e] == s[at];
      assert MayStand(its, e, k, s[at]);
    }
    assert s[d..][q - d] == SLASH;
    assert MayStand(its, e, q - d + e, SLASH);
    assert SlidesBy(its, e);
  }

  ghost function Filled(its: seq<Item>, d: nat, k: nat): (c: Char)
    requires SomeStands(its, d, k)
    ensures MayStand(its, d, k, c) && (MayStand(its, d, k, SLASH) ==> c == SLASH)
  {
    if MayStand(its, d, k, SLASH) then SLASH else var c :| MayStand(its, d, k, c); c
  }

  lemma {:induction false} FillIn(its: seq<Item>, d: nat)
    requires SlidesBy(its, d)
    ensures Slides(its)
  {
    var n := |its|;
    var s := seq(n + d, k requires 0 <= k < n + d => Filled(its, d, k));
    forall k: nat | k < n + d ensures MayStand(its, d, k, s[k]) {}
    var k: nat :| n <= k < n + d && MayStand(its, d, k, SLASH);
    FillingSlides(its, d, s, k);
  }

  lemma {:induction false} FillingSlides(its: seq<Item>, d: nat, s: Text, q: nat)
    requires 0 < d <= |its| && |s| == |its| + d && forall k: nat :: k < |s| ==> MayStand(its, d, k, s[k])
    requires |its| <= q < |s| && s[q] == SLASH
    ensures Slides(its)
  {
    forall k | 0 <= k < |its| ensures ItemMatches(its[k], s[k]) && ItemMatches(its[k], s[d..][k]) {
      assert MayStand(its, d, k, s[k]) && MayStand(its, d, d + k, s[d + k]);
    }
    forall k | 0 <= k < d ensures s[..d][k] != SLASH { assert MayStand(its, d, k, s[k]); }
    assert s[|its|..][q - |its|] == SLASH;
    assert SlidesOn(its, s, d);
  }

  // Two places for one chunk, both before any slash: without slashes in
  // classes the later one holds none, since it would recur at a smaller index.
  lemma {:induction false} LaterPlaceIsSlashFree(its: seq<Item>, s: Text, d: nat, j: nat)
    requires SlidesOn(its, s, d) && j < |its|
    requires forall k :: 0 <= k < |its| && its[k].Class? ==> !ItemMatches(its[k], SLASH)
    ensures s[d + j] != SLASH
  {
    assert s[d..][j] == s[d + j];
    assert j < d ==> s[..d][j] == s[j];
    if s[d + j] == SLASH {
      assert its[j] == Lit(SLASH) && s[j] == SLASH;
      LaterPlaceIsSlashFree(its, s, d, j - d);
    }
  }

  // Only classes make a chunk slide...
  lemma {:induction false} SlashlessClassesStay(its: seq<Item>)
    requires forall k :: 0 <= k < |its| && its[k].Class? ==> !ItemMatches(its[k], SLASH)
    ensures !Slides(its)
  {
    if s, d: nat :| SlidesOn(its, s, d) {
      var q := SlideSlash(its, s, d);
      LaterPlaceIsSlashFree(its, s, d, q - d);
      assert false;
    }
  }

  // ...but not every class that may be a slash: `[/]` alone stays.
  lemma {:induction false} SlashAloneStays(it: Item)
    requires forall c :: ItemMatches(it, c) ==> c == SLASH
    ensures !Slides([it])
  {
    forall s, d: nat ensures !SlidesOn([it], s, d) {
      assert |s| > 0 && d > 0 && d <= |s| ==> s[..d][0] == s[0];
    }
  }

  const NOT_X: Text := [OPEN, CARET, 120, CLOSE]
  const NOT_X_ITEM := Class(true, [Range(120, 120)])

  // `[^x]` followed by z.
  lemma {:induction false} NotXParses(z: Text)
    ensures NextItem(NOT_X + z) == Some((NOT_X_ITEM, z))
  {
    var p := NOT_X + z;
    assert p[2..] == [120, CLOSE] + z && p[2..][1..] == [CLOSE] + z && ([CLOSE] + z)[1..] == z;
    assert ClassBody([CLOSE] + z, true) == Some(([], z));
    assert [Range(120, 120)] + [] == [Range(120, 120)];
    assert GetEsc([120, CLOSE] + z) == Some((120, [CLOSE] + z));
  }

  lemma {:induction false} NotXMatches(c: Char)
    ensures ItemMatches(NOT_X_ITEM, c) <==> c != 120
  {
    assert NOT_X_ITEM.ranges[0].lo == 120;
  }

  lemma {:induction false} NotXChunk(z: Text)
    requires |z| > 0 && z[0] == STAR
    ensures var p := [STAR] + (NOT_X + z);
      Starred(p) && |SkipStars(p)| > 0 && Chunk(p) == NOT_X && After(p) == z
  {
    var p := [STAR] + (NOT_X + z);
    NotXParses(z);
    NextItemInStep(NOT_X + z);
    assert p[1..] == NOT_X + z;
    assert SkipStars(p) == NOT_X + z && ChunkLength(z, false) == 0;
  }

  lemma {:induction false} NotXItems()
    ensures ParseItems(NOT_X) == Some([NOT_X_ITEM])
  {
    var nothing: Text := [];
    NotXParses(nothing);
    assert NOT_X + nothing == NOT_X;
    ParseItemsStep(NOT_X, NOT_X_ITEM, nothing);
    assert [NOT_X_ITEM] + [] == [NOT_X_ITEM];
  }

  // A star, that class, and a rest beginning with a star: the class takes the
  // first character of the name.
  lemma {:induction false} NotXTakesTheFirst(z: Text, name: Text)
    requires |z| > 0 && z[0] == STAR && |name| > 0 && name[0] == 97
    ensures Glob([STAR] + (NOT_X + z), name) == Glob(z, name[1..])
  {
    NotXChunk(z);
    NotXItems();
    NotXMatches(97);
    assert PrefixMatches([NOT_X_ITEM], name);
  }

  lemma {:induction false} StarZStopsAtSlash(z: Text, name: Text)
    requires z == [STAR, 122] && |name| > 0 && name[0] == SLASH
    ensures Parse(z) == Some([Star, One(Lit(122))]) && !Glob(z, name).matched
  {
    assert z[1..] == [122] && NextItem(z[1..]) == Some((Lit(122), z[2..]));
    ParseStep(z[1..], Lit(122), z[2..]);
    assert [Star] + ([One(Lit(122))] + []) == [Star, One(Lit(122))];
    if Glob(z, name).matched {
      MatchIsSound(z, name);
      assert false;
    }
  }

  // Without that condition greed loses matches: `*[^x]*z` means to match
  // `a/z`, with the class taking the slash.
  lemma {:induction false} SlashInClassIsMissed()
    ensures var p, name := [STAR] + (NOT_X + [STAR, 122]), [97, SLASH, 122];
      && Parse(p).Some? && Matches(Parse(p).value, name) && !Glob(p, name).matched
  {
    var z: Text, name: Text := [STAR, 122], [97, SLASH, 122];
    var p := [STAR] + (NOT_X + z);
    NotXTakesTheFirst(z, name);
    StarZStopsAtSlash(z, name[1..]);
    NotXParses(z);
    NotXMatches(SLASH);
    ParseStep(NOT_X + z, NOT_X_ITEM, z);
    assert p[1..] == NOT_X + z;
    var es := [Star] + ([One(NOT_X_ITEM)] + [Star, One(Lit(122))]);
    assert Parse(p) == Some(es);
    assert Matches(es[3..], name[2..]);
    assert Matches(es[2..], name[2..]);
    assert Matches(es[1..], name[1..]);
  }

  // ---- The loops --------------------------------------------------------

  method ScanChunk(pattern: Text) returns (star: bool, chunk: Text, rest: Text)
    requires pattern != []
    ensures star == Starred(pattern) && chunk == Chunk(pattern) && rest == After(pattern)
    ensures star && |chunk| == 0 <==> OnlyStars(pattern)
  {
    star := false;
    var p := 0;
    while p < |pattern| && pattern[p] == STAR
      invariant 0 <= p <= |pattern|
      invariant SkipStars(pattern[p..]) == SkipStars(pattern)
      invariant star <==> p > 0
      invariant p > 0 ==> Starred(pattern)
    {
      assert pattern[p..][1..] == pattern[p + 1..];
      p := p + 1;
      star := true;
    }
    var body := pattern[p..];
    var n := FindChunkEnd(body);
    chunk, rest := body[..n], body[n..];
    ChunkEndsAtStar(body, false);
  }

  // Index of the first star of the text outside brackets, or its length.
  method FindChunkEnd(pattern: Text) returns (n: nat)
    ensures n == ChunkLength(pattern, false)
  {
    var inRange := false;
    var i := 0;
    while i < |pattern|
      invariant 0 <= i <= |pattern|
      invariant ChunkLength(pattern, false) == i + ChunkLength(pattern[i..], inRange)
    {
      var tail := pattern[i..];
      if pattern[i] == BACKSLASH {
        if i + 1 < |pattern| {
          assert tail[2..] == pattern[i + 2..];
          i := i + 1;
        }
      } else if pattern[i] == OPEN {
        inRange := true;
      } else if pattern[i] == CLOSE {
        inRange := false;
      } else if pattern[i] == STAR && !inRange {
        return i;
      }
      assert tail[0] != BACKSLASH ==> tail[1..] == pattern[i + 1..];
      i := i + 1;
    }
    n := |pattern|;
  }

  method GetEscape(chunk: Text) returns (ok: bool, c: Char, rest: Text)
    ensures ok == GetEsc(chunk).Some?
    ensures ok ==> GetEsc(chunk) == Some((c, rest)) && |rest| < |chunk|
  {
    if chunk == [] || chunk[0] == DASH || chunk[0] == CLOSE {
      return false, 0, chunk;
    }
    rest := chunk;
    if rest[0] == BACKSLASH {
      rest := rest[1..];
      if rest == [] { return false, 0, rest; }
    }
    c := rest[0];
    rest := rest[1..];
    ok := rest != [];
  }

  function Behind(seen: seq<Range>, more: Option<(seq<Range>, Text)>): Option<(seq<Range>, Text)> {
    match more
    case None => None
    case Some((rs, rest)) => Some((seen + rs, rest))
  }

  lemma {:induction false} BehindPrepend(seen: seq<Range>, r: Range, more: Option<(seq<Range>, Text)>)
    ensures Behind(seen, Prepend(r, more)) == Behind(seen + [r], more)
  {
    if more.Some? { assert seen + ([r] + more.value.0) == seen + [r] + more.value.0; }
  }

  // The class whose ranges start at `body`: does it contain r, where does it
  // end?
  method ReadClass(body: Text, r: Char) returns (ok: bool, found: bool, rest: Text)
    ensures ok == ClassBody(body, false).Some?
    ensures ok ==> rest == ClassBody(body, false).value.1 && found == InRanges(ClassBody(body, false).value.0, r)
  {
    found := false;
    var chunk, nrange := body, 0;
    ghost var seen: seq<Range> := [];
    assert Behind(seen, ClassBody(body, false)) == ClassBody(body, false) by {
      if ClassBody(body, false).Some? { assert [] + ClassBody(body, false).value.0 == ClassBody(body, false).value.0; }
    }
    while !(chunk != [] && chunk[0] == CLOSE && nrange > 0)
      invariant Behind(seen, ClassBody(chunk, nrange > 0)) == ClassBody(body, false)
      invariant found == InRanges(seen, r)
      decreases |chunk|
    {
      ghost var here := chunk;
      var good, lo, q := GetEscape(chunk);
      if !good { return false, false, []; }
      chunk := q;
      var hi := lo;
      if chunk[0] == DASH {
        good, hi, q := GetEscape(chunk[1..]);
        if !good { return false, false, []; }
        chunk := q;
      }
      assert ClassBody(here, nrange > 0) == Prepend(Range(lo, hi), ClassBody(chunk, true));
      BehindPrepend(seen, Range(lo, hi), ClassBody(chunk, true));
      InRangesGrows(seen, Range(lo, hi), r);
      if lo <= r <= hi { found := true; }
      seen := seen + [Range(lo, hi)];
      nrange := nrange + 1;
    }
    assert seen + [] == seen;
    return true, found, chunk[1..];
  }

  lemma {:induction false} InRangesGrows(seen: seq<Range>, x: Range, r: Char)
    ensures InRanges(seen + [x], r) <==> InRanges(seen, r) || x.lo <= r <= x.hi
  {
    assert (seen + [x])[|seen|] == x;
    if i :| 0 <= i < |seen| && seen[i].lo <= r <= seen[i].hi { assert (seen + [x])[i] == seen[i]; }
  }

  // One item taken off the front of the chunk.
  lemma {:induction false} ResumeStep(chunk: Text, s: Text, failed: bool, it: Item, rest: Text)
    requires chunk != [] && NextItem(chunk) == Some((it, rest))
    ensures failed || s == [] ==> forall any :: Resume(chunk, s, failed) == Resume(rest, any, true)
    ensures !failed && s != [] ==> Resume(chunk, s, failed) == Resume(rest, s[1..], !ItemMatches(it, s[0]))
  {
    if ParseItems(rest).Some? && !failed && s != [] {
      var its := ParseItems(rest).value;
      assert PrefixMatches([it] + its, s) <==> ItemMatches(it, s[0]) && PrefixMatches(its, s[1..]);
      if PrefixMatches([it] + its, s) { assert Rest([it] + its, s) == Rest(its, s[1..]); }
    }
  }

  method MatchChunk(chunk0: Text, s0: Text) returns (res: ChunkResult)
    ensures res == Resume(chunk0, s0, false)
  {
    var chunk, s, failed := chunk0, s0, false;
    while chunk != []
      invariant Resume(chunk, s, failed) == Resume(chunk0, s0, false)
      decreases |chunk|
    {
      ghost var it, before, c, f := AnyChar, s, chunk, failed;
      failed := failed || s == [];
      if chunk[0] == OPEN {
        var r := 0;
        if !failed {
          r := s[0];
          s := s[1..];
        }
        chunk := chunk[1..];
        var negated := false;
        if chunk != [] && chunk[0] == CARET {
          negated := true;
          chunk := chunk[1..];
        }
        assert chunk == if negated then c[2..] else c[1..];
        var ok, found, rest := ReadClass(chunk, r);
        if !ok {
          assert NextItem(c) == None;
          return Malformed;
        }
        it := Class(negated, ClassBody(chunk, false).value.0);
        chunk := rest;
        failed := failed || found == negated;
      } else if chunk[0] == QUERY {
        if !failed {
          failed := s[0] == SLASH;
          s := s[1..];
        }
        chunk := chunk[1..];
      } else if chunk[0] == BACKSLASH {
        chunk := chunk[1..];
        if chunk == [] {
          assert NextItem(c) == None;
          return Malformed;
        }
        it := Lit(chunk[0]);
        if !failed {
          failed := chunk[0] != s[0];
          s := s[1..];
        }
        chunk := chunk[1..];
      } else {
        it := Lit(chunk[0]);
        if !failed {
          failed := chunk[0] != s[0];
          s := s[1..];
        }
        chunk := chunk[1..];
      }
      assert NextItem(c) == Some((it, chunk));
      ResumeStep(c, before, f, it, chunk);
    }
    if failed { return Fails; }
    assert Rest([], s) == s;
    res := Leaves(s);
  }

  method GlobMatch(pattern0: Text, name0: Text) returns (res: Outcome)
    ensures res == Glob(pattern0, name0)
  {
    var pattern, name := pattern0, name0;
    while pattern != []
      invariant Glob(pattern, name) == Glob(pattern0, name0)
      decreases |pattern|
    {
      var star, chunk, rest := ScanChunk(pattern);
      if star && |chunk| == 0 {
        return Outcome(SLASH !in name, false);
      }
      var mc := MatchChunk(chunk, name);
      if mc.Malformed? { return Outcome(false, true); }
      var placed := mc.Leaves? && (mc.rest == [] || rest != []);
      var left := if placed then mc.rest else [];
      if !placed && star {
        placed, left := RetryChunk(chunk, name, rest == []);
      }
      if !placed {
        var bad := AnyChunkMalformed(rest);
        return Outcome(false, bad);
      }
      pattern, name := rest, left;
    }
    res := Outcome(name == [], false);
  }

  // The chunk at every later place before the first slash.
  method RetryChunk(chunk: Text, name: Text, last: bool) returns (placed: bool, left: Text)
    requires ParseItems(chunk).Some?
    ensures var r := Retry(ParseItems(chunk).value, name, last);
      if r.Some? then placed && left == r.value else !placed
  {
    ghost var its := ParseItems(chunk).value;
    var i := 0;
    while i < |name| && name[i] != SLASH
      invariant 0 <= i <= |name|
      invariant Retry(its, name, last) == Retry(its, name[i..], last)
    {
      var mc := MatchChunk(chunk, name[i + 1..]);
      assert name[i..][1..] == name[i + 1..];
      if mc.Leaves? && !(last && mc.rest != []) {
        return true, mc.rest;
      }
      i := i + 1;
    }
    return false, [];
  }

  method AnyChunkMalformed(rest: Text) returns (bad: bool)
    ensures bad == Parse(rest).None?
  {
    var p := rest;
    while p != []
      invariant Parse(p).None? <==> Parse(rest).None?
      decreases |p|
    {
      var _, chunk, after := ScanChunk(p);
      PatternParses(p);
      var mc := MatchChunk(chunk, []);
      if mc.Malformed? { return true; }
      p := after;
    }
    bad := false;
  }

  // ---- The policy -------------------------------------------------------

  // Bits of permission: read is 1, write is 2.
  type Permission = bv8

  datatype Rule = Rule(pattern: Text, allow: Permission)

  predicate Grants(r: Rule, perm: Permission) { r.allow & perm != 0 }

  /** Rule i decides: it is the first that matches the topic. */
  ghost predicate Decides(rules: seq<Rule>, topic: Text, i: nat) {
    && i < |rules| && Glob(rules[i].pattern, topic).matched
    && forall j :: 0 <= j < i ==> !Glob(rules[j].pattern, topic).matched
  }

  // First match wins, malformed patterns are skipped, and no match denies.
  method Allows(rules: seq<Rule>, topic: Text, perm: Permission) returns (ok: bool)
    ensures ok <==> exists i: nat :: Decides(rules, topic, i) && Grants(rules[i], perm)
  {
    var i := 0;
    while i < |rules|
      invariant 0 <= i <= |rules|
      invariant forall j :: 0 <= j < i ==> !Glob(rules[j].pattern, topic).matched
    {
      var res := GlobMatch(rules[i].pattern, topic);
      MalformedIsThePatterns(rules[i].pattern, topic);
      if !res.malformed && res.matched {
        assert Decides(rules, topic, i);
        return Grants(rules[i], perm);
      }
      i := i + 1;
    }
    ok := false;
  }
}
