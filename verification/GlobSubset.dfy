/** The syntactic comparison of two globs (src/capability.ts) against containment of their languages. */
module GlobSubset {
  import opened Glob

  // ---------------------------------------------------------------------------
  // The subset test on globs
  // ---------------------------------------------------------------------------

  const ANY_DEPTH: JsString := [STAR, STAR]
  const ANY_SEGMENT: JsString := [STAR]

  predicate SegmentIsSubset(childSeg: JsString, parentSeg: JsString) {
    childSeg == parentSeg || (parentSeg == ANY_SEGMENT && childSeg != ANY_DEPTH)
  }

  /** The segment walk, on what remains of the two patterns. */
  predicate SegmentsSubset(child: seq<JsString>, parent: seq<JsString>)
    decreases |parent|
  {
    if parent == [] then child == []
    else if parent[0] == ANY_DEPTH then child != []
    else
      && child != []
      && child[0] != ANY_DEPTH
      && SegmentIsSubset(child[0], parent[0])
      && SegmentsSubset(child[1..], parent[1..])
  }

  predicate GlobIsSubset(child: JsString, parent: JsString) {
    SegmentsSubset(Split(child), Split(parent))
  }

  method PathGlobIsSubset(childGlob: JsString, parentGlob: JsString) returns (subset: bool)
    ensures subset <==> GlobIsSubset(childGlob, parentGlob)
  {
    var childSegs := Split(childGlob);
    var parentSegs := Split(parentGlob);
    var ci := 0;
    for pi := 0 to |parentSegs|
      invariant ci == pi <= |childSegs|
      invariant GlobIsSubset(childGlob, parentGlob) <==> SegmentsSubset(childSegs[ci..], parentSegs[pi..])
    {
      var parentSeg := parentSegs[pi];
      assert parentSegs[pi..][1..] == parentSegs[pi + 1..];
      if parentSeg == ANY_DEPTH {
        return ci < |childSegs|;
      }
      if ci >= |childSegs| {
        return false;
      }
      var childSeg := childSegs[ci];
      assert childSegs[ci..][1..] == childSegs[ci + 1..];
      if childSeg == ANY_DEPTH {
        return false;
      }
      if !SegmentIsSubset(childSeg, parentSeg) {
        return false;
      }
      ci := ci + 1;
    }
    return ci == |childSegs|;
  }

  /** A glob in which `**` occurs only as the whole last segment. */
  ghost predicate WellFormed(segs: seq<JsString>) {
    && segs != []
    && forall i | 0 <= i < |segs| :: NoSlash(segs[i]) && (HasDoubleStar(segs[i]) ==> i == |segs| - 1 && segs[i] == ANY_DEPTH)
  }

  ghost predicate WellFormedGlob(glob: JsString) { WellFormed(Split(glob)) }

  lemma AnyDepthMatches(path: JsString)
    requires OneLine(path)
    ensures Matches(Tokens(ANY_DEPTH), path)
  {
    assert ANY_DEPTH[2..] == [] && Tokens(ANY_DEPTH) == [AnyRun];
    assert path[..|path|] == path && path[|path|..] == [];
    assert Matches([AnyRun][1..], path[|path|..]);
  }

  lemma AnySegmentMatches(seg: JsString)
    ensures Matches(Tokens(ANY_SEGMENT), seg) <==> NoSlash(seg)
  {
    assert ANY_SEGMENT[1..] == [] && Tokens(ANY_SEGMENT) == [SegRun];
    if NoSlash(seg) {
      assert seg[..|seg|] == seg && seg[|seg|..] == [];
      assert Matches([SegRun][1..], seg[|seg|..]);
    } else if Matches([SegRun], seg) {
      WithinSegmentMatch([SegRun], seg);
    }
  }

  lemma SegmentNarrows(child: JsString, parent: JsString, seg: JsString)
    requires SegmentIsSubset(child, parent) && NoSlash(child) && !HasDoubleStar(child)
    requires Matches(Tokens(child), seg)
    ensures Matches(Tokens(parent), seg)
  {
    TokensWithinSegment(child);
    WithinSegmentMatch(Tokens(child), seg);
    AnySegmentMatches(seg);
  }

  lemma {:induction false} SegmentsNarrow(child: seq<JsString>, parent: seq<JsString>, path: JsString)
    requires WellFormed(child) && WellFormed(parent) && SegmentsSubset(child, parent)
    requires OneLine(path) && GlobMatches(child, path)
    ensures GlobMatches(parent, path)
    decreases |parent|
  {
    if parent[0] == ANY_DEPTH {
      assert HasDoubleStar(parent[0]) by { assert parent[0][0] == STAR && parent[0][1] == STAR; }
      AnyDepthMatches(path);
    } else if |child| == 1 {
      SegmentNarrows(child[0], parent[0], path);
    } else {
      var k := GlobMatchesUncons(child, path);
      assert SegmentsSubset(child[1..], parent[1..]);
      SegmentNarrows(child[0], parent[0], path[..k]);
      SegmentsNarrow(child[1..], parent[1..], path[k + 1..]);
      GlobMatchesCons(parent, path[..k], path[k + 1..]);
      assert path == path[..k] + [SLASH] + path[k + 1..];
    }
  }

  /** The syntactic test implies containment of the compiled languages. */
  lemma GlobSubsetNarrows(child: JsString, parent: JsString, path: JsString)
    requires WellFormedGlob(child) && WellFormedGlob(parent)
    requires GlobIsSubset(child, parent)
    requires OneLine(path) && Matches(Tokens(child), path)
    ensures Matches(Tokens(parent), path)
  {
    SegmentsNarrow(Split(child), Split(parent), path);
  }

  // ---------------------------------------------------------------------------
  // Where the test is exact
  // ---------------------------------------------------------------------------

  const LETTER: CodeUnit := 0x61

  /** Some text that a segment pattern without `**` matches. */
  function Sample(seg: JsString): (text: JsString)
    decreases |seg|
  {
    if seg == [] then []
    else if seg[0] == STAR then Sample(seg[1..])
    else if seg[0] == QUESTION then [LETTER] + Sample(seg[1..])
    else [seg[0]] + Sample(seg[1..])
  }

  ghost predicate PlainSegment(seg: JsString) { NoSlash(seg) && OneLine(seg) && !HasDoubleStar(seg) }

  lemma {:induction false} SampleMatches(seg: JsString)
    requires PlainSegment(seg)
    ensures Matches(Tokens(seg), Sample(seg)) && NoSlash(Sample(seg)) && OneLine(Sample(seg))
    decreases |seg|
  {
    if seg != [] {
      assert !(|seg| > 1 && seg[0] == STAR && seg[1] == STAR);
      forall i | 0 <= i < |seg[1..]| - 1
        ensures !(seg[1..][i] == STAR && seg[1..][i + 1] == STAR)
      {
        assert !(seg[i + 1] == STAR && seg[i + 2] == STAR);
      }
      SampleMatches(seg[1..]);
      var s := Sample(seg);
      if seg[0] == STAR {
        assert s[..0] == [] && s[0..] == s;
      } else {
        assert s[1..] == Sample(seg[1..]);
      }
    }
  }

  lemma SampleWhole(segs: seq<JsString>) returns (path: JsString)
    requires segs != []
    requires forall i | 0 <= i < |segs| :: PlainSegment(segs[i]) || (i == |segs| - 1 && segs[i] == ANY_DEPTH)
    ensures OneLine(path) && GlobMatches(segs, path)
    decreases |segs|
  {
    if segs[0] == ANY_DEPTH {
      path := [];
      AnyDepthMatches([]);
    } else {
      SampleMatches(segs[0]);
      path := Sample(segs[0]);
      if |segs| > 1 {
        var rest := SampleWhole(segs[1..]);
        path := path + [SLASH] + rest;
        GlobMatchesCons(segs, Sample(segs[0]), rest);
      }
    }
  }

  lemma SingleSegmentMatch(seg: JsString, path: JsString)
    requires NoSlash(seg) && !HasDoubleStar(seg) && GlobMatches([seg], path)
    ensures NoSlash(path)
  {
    TokensWithinSegment(seg);
    WithinSegmentMatch(Tokens(seg), path);
  }

  /** With a first segment that cannot cross a slash, the first slash of the path decides. */
  lemma FirstSegmentDecides(segs: seq<JsString>, head: JsString, tail: JsString)
    requires segs != [] && NoSlash(segs[0]) && !HasDoubleStar(segs[0]) && NoSlash(head)
    ensures GlobMatches(segs, head + [SLASH] + tail)
            <==> |segs| > 1 && Matches(Tokens(segs[0]), head) && GlobMatches(segs[1..], tail)
  {
    var path := head + [SLASH] + tail;
    assert path[..|head|] == head && path[|head|] == SLASH && path[|head| + 1..] == tail;
    assert SLASH in path;
    if GlobMatches(segs, path) {
      if |segs| == 1 {
        assert segs == [segs[0]];
        SingleSegmentMatch(segs[0], path);
      } else {
        var k := GlobMatchesUncons(segs, path);
        SlashAt(path, k, |head|);
      }
    } else if |segs| > 1 && Matches(Tokens(segs[0]), head) && GlobMatches(segs[1..], tail) {
      GlobMatchesCons(segs, head, tail);
    }
  }

  // --- slashes demanded by a pattern -----------------------------------------

  function Slashes(s: JsString): nat {
    if s == [] then 0 else (if s[0] == SLASH then 1 else 0) + Slashes(s[1..])
  }

  function SlashTokens(ts: seq<Token>): nat {
    if ts == [] then 0 else (if ts[0] == Lit(SLASH) then 1 else 0) + SlashTokens(ts[1..])
  }

  lemma {:induction false} SlashesAppend(a: JsString, b: JsString)
    ensures Slashes(a + b) == Slashes(a) + Slashes(b)
  {
    if a == [] {
      assert a + b == b;
    } else {
      assert (a + b)[1..] == a[1..] + b;
      SlashesAppend(a[1..], b);
    }
  }

  lemma {:induction false} SlashTokensAppend(a: seq<Token>, b: seq<Token>)
    ensures SlashTokens(a + b) == SlashTokens(a) + SlashTokens(b)
  {
    if a == [] {
      assert a + b == b;
    } else {
      assert (a + b)[1..] == a[1..] + b;
      SlashTokensAppend(a[1..], b);
    }
  }

  lemma {:induction false} NoSlashCount(s: JsString)
    ensures NoSlash(s) ==> Slashes(s) == 0
  {
    if s != [] && NoSlash(s) {
      assert forall u | u in s[1..] :: u in s;
      NoSlashCount(s[1..]);
    }
  }

  lemma {:induction false} MatchHasSlashes(ts: seq<Token>, s: JsString)
    requires Matches(ts, s)
    ensures Slashes(s) >= SlashTokens(ts)
    decreases |ts|
  {
    if ts != [] {
      var k := TakeFront(ts, s);
      hide Matches;
      MatchHasSlashes(ts[1..], s[k..]);
      assert s == s[..k] + s[k..];
      SlashesAppend(s[..k], s[k..]);
    }
  }

  lemma {:induction false} GlobHasSlashes(segs: seq<JsString>, path: JsString)
    requires segs != [] && GlobMatches(segs, path)
    ensures Slashes(path) >= |segs| - 1
  {
    JoinSlashTokens(segs);
    MatchHasSlashes(Tokens(Join(segs)), path);
  }

  lemma OneMoreSlash(rest: seq<Token>)
    ensures SlashTokens([Lit(SLASH)] + rest) == 1 + SlashTokens(rest)
  {
    assert ([Lit(SLASH)] + rest)[1..] == rest;
  }

  lemma {:induction false} JoinSlashTokens(segs: seq<JsString>)
    requires segs != []
    ensures SlashTokens(Tokens(Join(segs))) >= |segs| - 1
  {
    hide Tokens;
    hide SlashTokens;
    if |segs| > 1 {
      JoinSlashTokens(segs[1..]);
      TokensAcrossSlash(segs[0], Join(segs[1..]));
      hide Join;
      var rest := Tokens(Join(segs[1..]));
      OneMoreSlash(rest);
      SlashTokensAppend(Tokens(segs[0]), [Lit(SLASH)] + rest);
      assert Tokens(segs[0]) + [Lit(SLASH)] + rest == Tokens(segs[0]) + ([Lit(SLASH)] + rest);
    }
  }

  // --- which parents are safe against every child ----------------------------

  /** Parents in the scope of the exactness result: `**` only as a whole segment, no line terminator. */
  ghost predicate Regular(segs: seq<JsString>) {
    segs != [] && forall seg | seg in segs :: PlainSegment(seg) || seg == ANY_DEPTH
  }

  predicate StarsThenAnyDepth(segs: seq<JsString>) {
    segs != [] && if |segs| == 1 then segs[0] == ANY_DEPTH else segs[0] == ANY_SEGMENT && StarsThenAnyDepth(segs[1..])
  }

  /** A condition on the parent alone, readable off its segments: `**` comes last, and a `*` is
      followed by nothing but `*` up to a final `**`. */
  predicate SafeParent(segs: seq<JsString>)
    requires segs != []
  {
    if segs[0] == ANY_DEPTH then |segs| == 1
    else if segs[0] == ANY_SEGMENT then StarsThenAnyDepth(segs)
    else |segs| == 1 || SafeParent(segs[1..])
  }

  lemma {:induction false} EnoughSlashes(segs: seq<JsString>, path: JsString)
    requires StarsThenAnyDepth(segs) && OneLine(path) && Slashes(path) >= |segs| - 1
    ensures GlobMatches(segs, path)
    decreases |segs|
  {
    if |segs| == 1 {
      AnyDepthMatches(path);
    } else {
      NoSlashCount(path);
      var k: nat :| k < |path| && path[k] == SLASH && NoSlash(path[..k]) by { FirstSlash(path); }
      assert path == path[..k] + ([SLASH] + path[k + 1..]) && ([SLASH] + path[k + 1..])[1..] == path[k + 1..];
      SlashesAppend(path[..k], [SLASH] + path[k + 1..]);
      NoSlashCount(path[..k]);
      EnoughSlashes(segs[1..], path[k + 1..]);
      AnySegmentMatches(path[..k]);
      GlobMatchesCons(segs, path[..k], path[k + 1..]);
      assert path == path[..k] + [SLASH] + path[k + 1..];
    }
  }

  lemma {:induction false} FirstSlash(path: JsString)
    requires !NoSlash(path)
    ensures exists k: nat :: k < |path| && path[k] == SLASH && NoSlash(path[..k])
    decreases |path|
  {
    if path[0] == SLASH {
      assert path[..0] == [];
    } else {
      FirstSlash(path[1..]);
      var k: nat :| k < |path[1..]| && path[1..][k] == SLASH && NoSlash(path[1..][..k]);
      assert path[..k + 1] == [path[0]] + path[1..][..k];
      assert path[k + 1] == SLASH && NoSlash(path[..k + 1]);
    }
  }

  lemma {:induction false} SubsetLength(child: seq<JsString>, parent: seq<JsString>)
    requires SegmentsSubset(child, parent) && StarsThenAnyDepth(parent)
    ensures |child| >= |parent|
    decreases |parent|
  {
    if |parent| > 1 {
      SubsetLength(child[1..], parent[1..]);
    }
  }

  lemma {:induction false} SafeParentNarrows(child: seq<JsString>, parent: seq<JsString>, path: JsString)
    requires child != [] && Regular(parent) && SafeParent(parent) && SegmentsSubset(child, parent)
    requires OneLine(path) && GlobMatches(child, path)
    ensures GlobMatches(parent, path)
    decreases |parent|
  {
    if parent[0] == ANY_DEPTH {
      AnyDepthMatches(path);
    } else if parent[0] == ANY_SEGMENT {
      SubsetLength(child, parent);
      GlobHasSlashes(child, path);
      EnoughSlashes(parent, path);
    } else if |child| == 1 {
      assert parent[0] in parent;
    } else {
      assert parent[0] in parent;
      var k := GlobMatchesUncons(child, path);
      SafeParentNarrows(child[1..], parent[1..], path[k + 1..]);
      GlobMatchesCons(parent, path[..k], path[k + 1..]);
      assert path == path[..k] + [SLASH] + path[k + 1..];
    }
  }

  ghost predicate Escapes(child: seq<JsString>, parent: seq<JsString>, path: JsString) {
    && child != [] && parent != []
    && (forall seg | seg in child :: NoSlash(seg))
    && SegmentsSubset(child, parent)
    && OneLine(path) && GlobMatches(child, path) && !GlobMatches(parent, path)
  }

  const WIDE_STAR: JsString := [LETTER, STAR, STAR]

  lemma WideStarMatches(rest: JsString)
    requires OneLine(rest)
    ensures Matches(Tokens(WIDE_STAR), [LETTER] + rest)
  {
    assert WIDE_STAR[1..] == ANY_DEPTH;
    assert ([LETTER] + rest)[1..] == rest;
    AnyDepthMatches(rest);
    assert Tokens(WIDE_STAR)[1..] == Tokens(ANY_DEPTH);
  }

  /** Text that a segment other than `*` and `**` refuses. */
  lemma Refusal(seg: JsString) returns (text: JsString)
    requires PlainSegment(seg) && seg != ANY_SEGMENT
    ensures NoSlash(text) && OneLine(text) && !Matches(Tokens(seg), text)
  {
    if seg == [] {
      text := [LETTER];
    } else {
      text := [];
      if seg[0] == STAR {
        assert |seg| > 1 && seg[1] != STAR by {
          assert |seg| == 1 ==> seg == ANY_SEGMENT;
          assert |seg| > 1 ==> !(seg[0] == STAR && seg[1] == STAR);
        }
        assert Tokens(seg)[1..] == Tokens(seg[1..]);
      }
    }
  }

  lemma {:induction false} UnsafeParentEscapes(parent: seq<JsString>) returns (child: seq<JsString>, path: JsString)
    requires Regular(parent) && !SafeParent(parent)
    ensures Escapes(child, parent, path)
    decreases |parent|
  {
    assert parent[0] in parent;
    if parent[0] == ANY_DEPTH {
      child, path := [[]], [];
      assert Matches(Tokens([]), []);
      if GlobMatches(parent, path) {
        GlobHasSlashes(parent, path);
      }
    } else if |parent| == 1 {
      child, path := [WIDE_STAR], [LETTER, SLASH];
      WideStarMatches([SLASH]);
      assert [LETTER] + [SLASH] == path;
      if GlobMatches(parent, path) {
        assert parent == [parent[0]] && path[1] == SLASH;
        SingleSegmentMatch(parent[0], path);
      }
    } else {
      assert forall seg | seg in parent[1..] :: seg in parent;
      if SafeParent(parent[1..]) {
        child, path := EscapeThroughStar(parent);
      } else {
        var child', path' := UnsafeParentEscapes(parent[1..]);
        var seg := Sample(parent[0]);
        SampleMatches(parent[0]);
        child, path := [parent[0]] + child', seg + [SLASH] + path';
        assert child[1..] == child';
        GlobMatchesCons(child, seg, path');
        FirstSegmentDecides(parent, seg, path');
      }
    }
  }

  lemma EscapeThroughStar(parent: seq<JsString>) returns (child: seq<JsString>, path: JsString)
    requires Regular(parent) && |parent| > 1 && parent[0] == ANY_SEGMENT
    requires SafeParent(parent[1..]) && !SafeParent(parent)
    ensures Escapes(child, parent, path)
  {
    var rest := parent[1..];
    assert rest[0] == parent[1] && parent[1] in parent;
    assert rest[0] == ANY_DEPTH || rest[0] == ANY_SEGMENT ==> StarsThenAnyDepth(rest);
    var refused := Refusal(rest[0]);
    SafeShape(rest);
    var tail := SampleWhole(rest);
    child := [WIDE_STAR] + rest;
    var head := [LETTER, SLASH] + refused;
    path := head + [SLASH] + tail;
    WideStarMatches([SLASH] + refused);
    assert [LETTER] + ([SLASH] + refused) == head;
    assert child[1..] == rest;
    GlobMatchesCons(child, head, tail);
    SubsetReflexive(rest);
    assert path == [LETTER] + [SLASH] + (refused + [SLASH] + tail);
    FirstSegmentDecides(parent, [LETTER], refused + [SLASH] + tail);
    FirstSegmentDecides(rest, refused, tail);
    forall seg | seg in child
      ensures NoSlash(seg)
    {
      assert seg in rest ==> seg in parent;
    }
  }

  lemma {:induction false} SafeShape(segs: seq<JsString>)
    requires Regular(segs) && SafeParent(segs)
    ensures forall i | 0 <= i < |segs| :: PlainSegment(segs[i]) || (i == |segs| - 1 && segs[i] == ANY_DEPTH)
    decreases |segs|
  {
    assert forall i | 0 <= i < |segs| :: segs[i] in segs;
    if segs[0] == ANY_SEGMENT {
      StarsShape(segs);
    } else if |segs| > 1 {
      SafeShape(segs[1..]);
      assert forall i | 1 <= i < |segs| :: segs[i] == segs[1..][i - 1];
    }
  }

  lemma {:induction false} StarsShape(segs: seq<JsString>)
    requires StarsThenAnyDepth(segs)
    ensures forall i | 0 <= i < |segs| :: segs[i] == if i == |segs| - 1 then ANY_DEPTH else ANY_SEGMENT
  {
    if |segs| > 1 {
      StarsShape(segs[1..]);
      assert forall i | 1 <= i < |segs| :: segs[i] == segs[1..][i - 1];
    }
  }

  lemma {:induction false} SplitJoin(segs: seq<JsString>)
    requires segs != [] && forall seg | seg in segs :: NoSlash(seg)
    ensures Split(Join(segs)) == segs
  {
    if |segs| == 1 {
      SplitOne(segs[0]);
      assert segs == [segs[0]];
    } else {
      SplitAcross(segs[0], Join(segs[1..]));
      SplitJoin(segs[1..]);
      assert segs == [segs[0]] + segs[1..];
    }
  }

  lemma {:induction false} SplitOne(seg: JsString)
    requires NoSlash(seg)
    ensures Split(seg) == [seg]
  {
    if seg != [] {
      assert forall u | u in seg[1..] :: u in seg;
      SplitOne(seg[1..]);
      assert seg == [seg[0]] + seg[1..];
    }
  }

  lemma {:induction false} SplitAcross(seg: JsString, tail: JsString)
    requires NoSlash(seg)
    ensures Split(seg + [SLASH] + tail) == [seg] + Split(tail)
  {
    var s := seg + [SLASH] + tail;
    if seg == [] {
      assert s[1..] == tail;
    } else {
      assert forall u | u in seg[1..] :: u in seg;
      assert s[1..] == seg[1..] + [SLASH] + tail && s[0] == seg[0];
      SplitAcross(seg[1..], tail);
      assert seg == [seg[0]] + seg[1..];
    }
  }

  /** The subset test is sound for a parent, against every child whatsoever, exactly when the
      parent meets the condition above. */
  lemma SafeParentExactly(parent: JsString)
    requires Regular(Split(parent))
    ensures SafeParent(Split(parent)) <==>
            (forall child: JsString, path: JsString ::
               GlobIsSubset(child, parent) && OneLine(path) && Matches(Tokens(child), path) ==> Matches(Tokens(parent), path))
  {
    hide Matches;
    hide Tokens;
    hide Split;
    hide SegmentsSubset;
    hide SafeParent;
    hide Regular;
    hide OneLine;
    var segs := Split(parent);
    if SafeParent(segs) {
      forall child: JsString, path: JsString
        | GlobIsSubset(child, parent) && OneLine(path) && Matches(Tokens(child), path)
        ensures Matches(Tokens(parent), path)
      {
        SafeParentNarrows(Split(child), segs, path);
      }
    } else {
      var child, path := UnsafeParentEscapes(segs);
      SplitJoin(child);
      assert GlobIsSubset(Join(child), parent) && Matches(Tokens(Join(child)), path) && !Matches(Tokens(parent), path);
    }
  }

  // --- reflexivity and transitivity, for all globs ---------------------------

  lemma {:induction false} SubsetReflexive(segs: seq<JsString>)
    ensures SegmentsSubset(segs, segs)
  {
    if segs != [] {
      SubsetReflexive(segs[1..]);
    }
  }

  lemma {:induction false} SubsetTransitive(a: seq<JsString>, b: seq<JsString>, c: seq<JsString>)
    requires SegmentsSubset(a, b) && SegmentsSubset(b, c)
    ensures SegmentsSubset(a, c)
    decreases |c|
  {
    if c != [] && c[0] != ANY_DEPTH {
      SubsetTransitive(a[1..], b[1..], c[1..]);
    }
  }

  // --- globs of literals, `*` and a final `**`: the test decides containment --

  ghost predicate LiteralSegment(seg: JsString) {
    NoSlash(seg) && OneLine(seg) && STAR !in seg && QUESTION !in seg
  }

  ghost predicate SimpleGlob(segs: seq<JsString>) {
    segs != [] && forall i | 0 <= i < |segs| ::
      LiteralSegment(segs[i]) || segs[i] == ANY_SEGMENT || (i == |segs| - 1 && segs[i] == ANY_DEPTH)
  }

  lemma {:induction false} LiteralMatches(seg: JsString, text: JsString)
    requires LiteralSegment(seg)
    ensures Matches(Tokens(seg), text) <==> text == seg
    decreases |seg|
  {
    if seg != [] {
      assert seg[0] in seg && forall u | u in seg[1..] :: u in seg;
      assert Tokens(seg)[1..] == Tokens(seg[1..]);
      if text != [] {
        LiteralMatches(seg[1..], text[1..]);
        assert seg == [seg[0]] + seg[1..] && text == [text[0]] + text[1..];
      }
    }
  }

  lemma SimpleHead(segs: seq<JsString>)
    requires SimpleGlob(segs)
    ensures segs[0] != ANY_DEPTH ==> PlainSegment(segs[0])
    ensures segs[0] == ANY_DEPTH ==> segs == [ANY_DEPTH]
    ensures |segs| > 1 ==> SimpleGlob(segs[1..])
  {
    assert ANY_DEPTH[0] in ANY_DEPTH;
    forall i | 0 <= i < |segs[1..]|
      ensures LiteralSegment(segs[1..][i]) || segs[1..][i] == ANY_SEGMENT || (i == |segs[1..]| - 1 && segs[1..][i] == ANY_DEPTH)
    {
      assert segs[1..][i] == segs[i + 1];
    }
  }

  lemma SimpleSample(segs: seq<JsString>) returns (path: JsString)
    requires SimpleGlob(segs)
    ensures OneLine(path) && GlobMatches(segs, path)
    decreases |segs|
  {
    SimpleHead(segs);
    if segs[0] == ANY_DEPTH {
      path := [];
      AnyDepthMatches([]);
    } else {
      SampleMatches(segs[0]);
      path := Sample(segs[0]);
      if |segs| > 1 {
        var rest := SimpleSample(segs[1..]);
        GlobMatchesCons(segs, path, rest);
        path := path + [SLASH] + rest;
      }
    }
  }

  /** A first path segment that separates two first pattern segments, if one is not a subset of the other. */
  lemma SeparatingSegment(child: JsString, parent: JsString) returns (text: JsString)
    requires LiteralSegment(child) || child == ANY_SEGMENT
    requires LiteralSegment(parent) || parent == ANY_SEGMENT
    ensures NoSlash(text) && OneLine(text) && Matches(Tokens(child), text)
    ensures !SegmentIsSubset(child, parent) ==> !Matches(Tokens(parent), text)
  {
    if child == ANY_SEGMENT {
      text := [LETTER] + (if parent == ANY_SEGMENT then [] else parent);
      AnySegmentMatches(text);
    } else {
      text := child;
      LiteralMatches(child, child);
    }
    if parent != ANY_SEGMENT {
      LiteralMatches(parent, text);
    }
  }

  lemma {:induction false} RejectedEscapes(child: seq<JsString>, parent: seq<JsString>) returns (path: JsString)
    requires SimpleGlob(child) && SimpleGlob(parent) && !SegmentsSubset(child, parent)
    ensures OneLine(path) && GlobMatches(child, path) && !GlobMatches(parent, path)
    decreases |parent|
  {
    SimpleHead(child);
    SimpleHead(parent);
    if child[0] == ANY_DEPTH {
      if |parent| == 1 {
        path := [SLASH];
        assert parent == [parent[0]] && path[0] in path;
        AnyDepthMatches(path);
        if GlobMatches(parent, path) {
          SingleSegmentMatch(parent[0], path);
        }
      } else {
        path := [];
        AnyDepthMatches(path);
        if GlobMatches(parent, path) {
          GlobHasSlashes(parent, path);
        }
      }
    } else {
      assert parent[0] != ANY_DEPTH;
      path := SeparatingSegment(child[0], parent[0]);
      NoSlashCount(path);
      if |child| == 1 {
        assert child == [child[0]] && (|parent| == 1 ==> parent == [parent[0]]);
        if |parent| > 1 && GlobMatches(parent, path) {
          GlobHasSlashes(parent, path);
        }
      } else {
        var tail := SimpleSample(child[1..]);
        if |parent| > 1 && !SegmentsSubset(child[1..], parent[1..]) {
          tail := RejectedEscapes(child[1..], parent[1..]);
        }
        GlobMatchesCons(child, path, tail);
        FirstSegmentDecides(parent, path, tail);
        path := path + [SLASH] + tail;
      }
    }
  }

  lemma {:induction false} SimpleWellFormed(segs: seq<JsString>)
    requires SimpleGlob(segs)
    ensures WellFormed(segs)
    decreases |segs|
  {
    SimpleHead(segs);
    if segs[0] != ANY_DEPTH && |segs| > 1 {
      SimpleWellFormed(segs[1..]);
      assert forall i | 1 <= i < |segs| :: segs[i] == segs[1..][i - 1];
    }
  }

  /** On globs made of literal segments, `*` and a final `**`, the test is a decision procedure for
      containment of the languages: nothing unsound is accepted and nothing contained is refused. */
  lemma SimpleGlobsDecided(child: JsString, parent: JsString)
    requires SimpleGlob(Split(child)) && SimpleGlob(Split(parent))
    ensures GlobIsSubset(child, parent) <==>
            (forall path: JsString :: OneLine(path) && Matches(Tokens(child), path) ==> Matches(Tokens(parent), path))
  {
    if GlobIsSubset(child, parent) {
      SimpleWellFormed(Split(child));
      SimpleWellFormed(Split(parent));
      forall path: JsString | OneLine(path) && Matches(Tokens(child), path)
        ensures Matches(Tokens(parent), path)
      {
        GlobSubsetNarrows(child, parent, path);
      }
    } else {
      var path := RejectedEscapes(Split(child), Split(parent));
      assert Matches(Tokens(child), path) && !Matches(Tokens(parent), path);
    }
  }

  lemma WideChildEscapes()
    ensures GlobIsSubset([LETTER, STAR, STAR], [STAR])
    ensures Matches(Tokens([LETTER, STAR, STAR]), [LETTER, SLASH]) && !Matches(Tokens([STAR]), [LETTER, SLASH])
  {
    SplitOne([LETTER, STAR, STAR]);
    SplitOne([STAR]);
    WideStarMatches([SLASH]);
    assert [LETTER, SLASH] == [LETTER] + [SLASH] && [LETTER, SLASH][1] == SLASH;
    AnySegmentMatches([LETTER, SLASH]);
  }

  lemma InnerAnyDepthEscapes()
    ensures GlobIsSubset([LETTER], [STAR, STAR, SLASH, LETTER])
    ensures Matches(Tokens([LETTER]), [LETTER]) && !Matches(Tokens([STAR, STAR, SLASH, LETTER]), [LETTER])
  {
    SplitOne([LETTER]);
    SplitAcross(ANY_DEPTH, [LETTER]);
    assert ANY_DEPTH + [SLASH] + [LETTER] == [STAR, STAR, SLASH, LETTER];
    LiteralMatches([LETTER], [LETTER]);
    TokensAcrossSlash(ANY_DEPTH, [LETTER]);
    SlashTokensAppend(Tokens(ANY_DEPTH), [Lit(SLASH)] + Tokens([LETTER]));
    assert Tokens(ANY_DEPTH) + [Lit(SLASH)] + Tokens([LETTER]) == Tokens(ANY_DEPTH) + ([Lit(SLASH)] + Tokens([LETTER]));
    NoSlashCount([LETTER]);
    if Matches(Tokens([STAR, STAR, SLASH, LETTER]), [LETTER]) {
      MatchHasSlashes(Tokens([STAR, STAR, SLASH, LETTER]), [LETTER]);
    }
  }

  /** Outside well-formed globs the test lets a child escape: `a**` under `*`, and `a` under a parent
      whose `**` is not last. */
  lemma IllFormedGlobsEscape()
    ensures GlobIsSubset([LETTER, STAR, STAR], [STAR])
    ensures Matches(Tokens([LETTER, STAR, STAR]), [LETTER, SLASH]) && !Matches(Tokens([STAR]), [LETTER, SLASH])
    ensures GlobIsSubset([LETTER], [STAR, STAR, SLASH, LETTER])
    ensures Matches(Tokens([LETTER]), [LETTER]) && !Matches(Tokens([STAR, STAR, SLASH, LETTER]), [LETTER])
  {
    hide Matches;
    hide Tokens;
    hide GlobIsSubset;
    WideChildEscapes();
    InnerAnyDepthEscapes();
  }
}
