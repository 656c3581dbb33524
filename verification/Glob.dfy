/** Glob patterns: the compiler of `matchGlob` (src/routePolicy.ts) and the language its output denotes.
    Strings are sequences of UTF-16 code units, because `?` consumes one code unit. */
module Glob {
  import opened Prelude

  newtype CodeUnit = n: int | 0 <= n < 0x1_0000
  type JsString = seq<CodeUnit>

  const SLASH: CodeUnit := 0x2F
  const STAR: CodeUnit := 0x2A
  const QUESTION: CodeUnit := 0x3F
  const CARET: CodeUnit := 0x5E
  const DOLLAR: CodeUnit := 0x24
  const DOT: CodeUnit := 0x2E
  const OPEN_BRACKET: CodeUnit := 0x5B
  const CLOSE_BRACKET: CodeUnit := 0x5D
  const BACKSLASH: CodeUnit := 0x5C

  /** The characters `.` does not match in a JavaScript regular expression. */
  predicate LineTerminator(u: CodeUnit) {
    u == 0x0A || u == 0x0D || u == 0x2028 || u == 0x2029
  }

  /** The class `[.+^${}()|[\]\\]` that the compiler escapes. */
  predicate Meta(u: CodeUnit) {
    || u == DOT || u == 0x2B || u == CARET || u == DOLLAR || u == 0x7B || u == 0x7D || u == 0x28 || u == 0x29
    || u == 0x7C || u == OPEN_BRACKET || u == CLOSE_BRACKET || u == BACKSLASH
  }

  predicate NoSlash(s: JsString) { SLASH !in s }

  predicate OneLine(s: JsString) { forall u | u in s :: !LineTerminator(u) }

  // ---------------------------------------------------------------------------
  // Regular expressions of the shape the compiler emits
  // ---------------------------------------------------------------------------

  /** `.*`, `[^/]*`, `[^/]` and a literal. */
  datatype Token = AnyRun | SegRun | SegOne | Lit(unit: CodeUnit)

  /** The language of a token sequence. */
  predicate Matches(ts: seq<Token>, s: JsString)
    decreases |ts|
  {
    if ts == [] then s == []
    else match ts[0]
      case Lit(u) => s != [] && s[0] == u && Matches(ts[1..], s[1..])
      case SegOne => s != [] && s[0] != SLASH && Matches(ts[1..], s[1..])
      case SegRun => exists k | 0 <= k <= |s| :: NoSlash(s[..k]) && Matches(ts[1..], s[k..])
      case AnyRun => exists k | 0 <= k <= |s| :: OneLine(s[..k]) && Matches(ts[1..], s[k..])
  }

  /** The token a source text starts with and how many units spell it; `None` outside the fragment above. */
  function NextToken(r: JsString): (t: Option<(Token, nat)>)
    requires r != []
    ensures t.Some? ==> 1 <= t.value.1 <= |r|
  {
    if |r| >= 2 && r[0] == DOT && r[1] == STAR then Some((AnyRun, 2))
    else if |r| >= 5 && r[..5] == [OPEN_BRACKET, CARET, SLASH, CLOSE_BRACKET, STAR] then Some((SegRun, 5))
    else if |r| >= 4 && r[..4] == [OPEN_BRACKET, CARET, SLASH, CLOSE_BRACKET] then Some((SegOne, 4))
    else if |r| >= 2 && r[0] == BACKSLASH && Meta(r[1]) then Some((Lit(r[1]), 2))
    else if !Meta(r[0]) && r[0] != STAR && r[0] != QUESTION then Some((Lit(r[0]), 1))
    else None
  }

  /** How the regular expression engine reads a source text. */
  function ReadRegExp(r: JsString): Option<seq<Token>>
    decreases |r|
  {
    if r == [] then Some([])
    else
      match NextToken(r)
      case None => None
      case Some((t, n)) =>
        match ReadRegExp(r[n..])
        case None => None
        case Some(ts) => Some([t] + ts)
  }

  /** `new RegExp(source).test(s)` for an anchored source text. */
  predicate RegExpTest(source: JsString, s: JsString) {
    && |source| >= 2 && source[0] == CARET && source[|source| - 1] == DOLLAR
    && var ts := ReadRegExp(source[1..|source| - 1]);
       ts.Some? && Matches(ts.value, s)
  }

  // ---------------------------------------------------------------------------
  // The compiler
  // ---------------------------------------------------------------------------

  /** The token a pattern starts with, and how many units the compiler consumes for it. */
  function GlobToken(p: JsString): (r: (Token, nat))
    requires p != []
    ensures 1 <= r.1 <= |p|
  {
    if p[0] == STAR then
      if |p| > 1 && p[1] == STAR then (AnyRun, 2) else (SegRun, 1)
    else if p[0] == QUESTION then (SegOne, 1)
    else (Lit(p[0]), 1)
  }

  function Tokens(p: JsString): seq<Token>
    decreases |p|
  {
    if p == [] then []
    else
      var (t, n) := GlobToken(p);
      [t] + Tokens(p[n..])
  }

  function TokenText(t: Token): JsString {
    match t
    case AnyRun => [DOT, STAR]
    case SegRun => [OPEN_BRACKET, CARET, SLASH, CLOSE_BRACKET, STAR]
    case SegOne => [OPEN_BRACKET, CARET, SLASH, CLOSE_BRACKET]
    case Lit(u) => if Meta(u) then [BACKSLASH, u] else [u]
  }

  function RegExpText(ts: seq<Token>): JsString {
    if ts == [] then [] else TokenText(ts[0]) + RegExpText(ts[1..])
  }

  predicate Printable(ts: seq<Token>) {
    forall t | t in ts :: t.Lit? ==> t.unit != STAR && t.unit != QUESTION
  }

  lemma {:induction false} TokensPrintable(p: JsString)
    ensures Printable(Tokens(p))
    decreases |p|
  {
    if p != [] {
      if p[0] == STAR && |p| > 1 && p[1] == STAR {
        TokensPrintable(p[2..]);
      } else {
        TokensPrintable(p[1..]);
      }
    }
  }

  lemma {:induction false} RegExpTextAppend(ts: seq<Token>, t: Token)
    ensures RegExpText(ts + [t]) == RegExpText(ts) + TokenText(t)
  {
    if ts == [] {
      assert ts + [t] == [t];
      assert RegExpText([]) == [];
    } else {
      assert (ts + [t])[1..] == ts[1..] + [t];
      RegExpTextAppend(ts[1..], t);
    }
  }

  /** The engine reads one emitted token off the front; nothing emitted starts with `*`. */
  lemma ReadToken(t: Token, tail: JsString)
    requires Printable([t]) && (tail != [] ==> tail[0] != STAR)
    ensures TokenText(t) + tail != []
    ensures NextToken(TokenText(t) + tail) == Some((t, |TokenText(t)|)) && (TokenText(t) + tail)[|TokenText(t)|..] == tail
  {
    assert t in [t];
    var r := TokenText(t) + tail;
    assert forall i | 0 <= i < |TokenText(t)| :: r[i] == TokenText(t)[i];
    assert |r| >= 5 ==> r[..5][0] == r[0] && r[..5][4] == r[4];
    assert |r| >= 4 ==> r[..4][0] == r[0];
    match t
    case AnyRun => assert r[0] == DOT && r[1] == STAR;
    case SegRun => assert r[..5] == TokenText(SegRun);
    case SegOne => assert r[..4] == TokenText(SegOne);
    case Lit(u) => assert r[0] == TokenText(t)[0];
  }

  lemma EmittedHead(ts: seq<Token>)
    requires Printable(ts)
    ensures RegExpText(ts) != [] ==> RegExpText(ts)[0] != STAR
  {
    if ts != [] {
      assert ts[0] in ts;
      assert RegExpText(ts)[0] == TokenText(ts[0])[0];
    }
  }

  /** Escaping is right: the engine reads the emitted text back as the tokens that were meant. */
  lemma {:induction false} ReadBack(ts: seq<Token>)
    requires Printable(ts)
    ensures ReadRegExp(RegExpText(ts)) == Some(ts)
  {
    if ts != [] {
      var tail := ts[1..];
      assert ts[0] in ts && forall t | t in tail :: t in ts;
      assert Printable([ts[0]]) && Printable(tail);
      EmittedHead(tail);
      ReadBack(tail);
      hide NextToken;
      hide TokenText;
      ReadToken(ts[0], RegExpText(tail));
      assert ts == [ts[0]] + tail;
    }
  }

  /** One turn of the compiler's loop. */
  lemma TokensStep(p: JsString, i: nat, width: nat, t: Token)
    requires i < |p|
    requires
      if p[i] == STAR then
        if i + 1 < |p| && p[i + 1] == STAR then width == 2 && t == AnyRun else width == 1 && t == SegRun
      else width == 1 && t == (if p[i] == QUESTION then SegOne else Lit(p[i]))
    ensures i + width <= |p| && Tokens(p[i..]) == [t] + Tokens(p[i + width..])
  {
    assert p[i..][width..] == p[i + width..];
  }

  lemma TestCompiled(pattern: JsString, source: JsString, path: JsString)
    requires source == [CARET] + RegExpText(Tokens(pattern)) + [DOLLAR]
    ensures RegExpTest(source, path) <==> Matches(Tokens(pattern), path)
  {
    TokensPrintable(pattern);
    ReadBack(Tokens(pattern));
    assert source[1..|source| - 1] == RegExpText(Tokens(pattern));
  }

  lemma RegExpTextStep(pattern: JsString, i: nat, width: nat, t: Token, done: seq<Token>)
    requires i + width <= |pattern|
    requires Tokens(pattern) == done + Tokens(pattern[i..])
    requires Tokens(pattern[i..]) == [t] + Tokens(pattern[i + width..])
    ensures [CARET] + RegExpText(done + [t]) == [CARET] + RegExpText(done) + TokenText(t)
    ensures Tokens(pattern) == (done + [t]) + Tokens(pattern[i + width..])
  {
    hide Tokens;
    hide TokenText;
    RegExpTextAppend(done, t);
    hide RegExpText;
    assert [CARET] + RegExpText(done + [t]) == [CARET] + RegExpText(done) + TokenText(t);
  }

  /** `matchGlob` decides the language of the compiled tokens. */
  method MatchGlob(pattern: JsString, path: JsString) returns (matched: bool)
    ensures matched <==> Matches(Tokens(pattern), path)
  {
    var regexStr := [CARET];
    var i := 0;
    ghost var done: seq<Token> := [];
    assert pattern[0..] == pattern && RegExpText(done) == [] && Tokens([]) == [];
    assert [] + Tokens(pattern) == Tokens(pattern) && [CARET] + [] == [CARET];
    hide Tokens;
    hide RegExpText;
    hide TokenText;
    hide RegExpTest;
    hide Matches;
    while i < |pattern|
      invariant 0 <= i <= |pattern|
      invariant regexStr == [CARET] + RegExpText(done)
      invariant Tokens(pattern) == done + Tokens(pattern[i..])
    {
      var ch := pattern[i];
      var text, width;
      ghost var t;
      if ch == STAR {
        if i + 1 < |pattern| && pattern[i + 1] == STAR {
          text, width, t := TokenText(AnyRun), 2, AnyRun;
        } else {
          text, width, t := TokenText(SegRun), 1, SegRun;
        }
      } else if ch == QUESTION {
        text, width, t := TokenText(SegOne), 1, SegOne;
      } else {
        text, width, t := TokenText(Lit(ch)), 1, Lit(ch);
      }
      TokensStep(pattern, i, width, t);
      RegExpTextStep(pattern, i, width, t, done);
      regexStr := regexStr + text;
      i := i + width;
      done := done + [t];
    }
    assert pattern[i..] == [] && done + [] == done;
    regexStr := regexStr + [DOLLAR];
    TestCompiled(pattern, regexStr, path);
    matched := RegExpTest(regexStr, path);
  }

  // ---------------------------------------------------------------------------
  // Matching and concatenation
  // ---------------------------------------------------------------------------

  lemma SplitAppend(s: JsString, t: JsString, k: nat)
    requires k <= |s|
    ensures (s + t)[..k] == s[..k] && (s + t)[k..] == s[k..] + t
  {
  }

  /** The texts one token matches. */
  predicate FrontOk(t: Token, w: JsString) {
    match t
    case Lit(u) => w == [u]
    case SegOne => |w| == 1 && w[0] != SLASH
    case SegRun => NoSlash(w)
    case AnyRun => OneLine(w)
  }

  lemma TakeFront(ts: seq<Token>, s: JsString) returns (k: nat)
    requires ts != [] && Matches(ts, s)
    ensures k <= |s| && FrontOk(ts[0], s[..k]) && Matches(ts[1..], s[k..])
  {
    match ts[0]
    case Lit(_) => k := 1;
    case SegOne => k := 1;
    case SegRun => k :| 0 <= k <= |s| && NoSlash(s[..k]) && Matches(ts[1..], s[k..]);
    case AnyRun => k :| 0 <= k <= |s| && OneLine(s[..k]) && Matches(ts[1..], s[k..]);
  }

  lemma GiveFront(ts: seq<Token>, s: JsString, k: nat)
    requires ts != [] && k <= |s| && FrontOk(ts[0], s[..k]) && Matches(ts[1..], s[k..])
    ensures Matches(ts, s)
  {
    assert (ts[0].Lit? || ts[0].SegOne?) ==> |s[..k]| == 1 && s[..k][0] == s[0];
  }

  lemma {:induction false} MatchesAppend(a: seq<Token>, b: seq<Token>, s: JsString, t: JsString)
    requires Matches(a, s) && Matches(b, t)
    ensures Matches(a + b, s + t)
    decreases |a|
  {
    if a == [] {
      assert a + b == b && s + t == t;
    } else {
      hide Matches;
      hide FrontOk;
      var k := TakeFront(a, s);
      assert (a + b)[0] == a[0] && (a + b)[1..] == a[1..] + b;
      MatchesAppend(a[1..], b, s[k..], t);
      SplitAppend(s, t, k);
      GiveFront(a + b, s + t, k);
    }
  }

  lemma SplitTwice(s: JsString, k: nat, m: nat)
    requires k + m <= |s|
    ensures s[k..][..m] == s[..k + m][k..] && s[k..][m..] == s[k + m..] && s[..k + m][..k] == s[..k]
  {
  }

  lemma NothingFirst(b: seq<Token>, s: JsString)
    requires Matches([] + b, s)
    ensures Matches([], s[..0]) && Matches(b, s[0..])
  {
    assert [] + b == b && s[..0] == [] && s[0..] == s;
  }

  lemma {:induction false} MatchesSplit(a: seq<Token>, b: seq<Token>, s: JsString) returns (n: nat)
    requires Matches(a + b, s)
    ensures n <= |s| && Matches(a, s[..n]) && Matches(b, s[n..])
    decreases |a|
  {
    hide Matches;
    hide FrontOk;
    if a == [] {
      n := 0;
      NothingFirst(b, s);
    } else {
      assert (a + b)[0] == a[0] && (a + b)[1..] == a[1..] + b;
      var k := TakeFront(a + b, s);
      var m := MatchesSplit(a[1..], b, s[k..]);
      n := k + m;
      SplitTwice(s, k, m);
      GiveFront(a, s[..n], k);
    }
  }

  predicate WithinSegment(ts: seq<Token>) {
    forall t | t in ts :: t != AnyRun && t != Lit(SLASH)
  }

  lemma {:induction false} WithinSegmentMatch(ts: seq<Token>, s: JsString)
    requires WithinSegment(ts) && Matches(ts, s)
    ensures NoSlash(s)
    decreases |ts|
  {
    if ts != [] {
      assert ts[0] in ts && forall t | t in ts[1..] :: t in ts;
      match ts[0]
      case Lit(_) => WithinSegmentMatch(ts[1..], s[1..]);
      case SegOne => WithinSegmentMatch(ts[1..], s[1..]);
      case SegRun =>
        var k :| 0 <= k <= |s| && NoSlash(s[..k]) && Matches(ts[1..], s[k..]);
        WithinSegmentMatch(ts[1..], s[k..]);
        assert s == s[..k] + s[k..];
    }
  }

  // ---------------------------------------------------------------------------
  // Segments
  // ---------------------------------------------------------------------------

  function Split(s: JsString): (segs: seq<JsString>)
    ensures segs != []
    ensures forall seg | seg in segs :: NoSlash(seg)
    ensures Join(segs) == s
  {
    if s == [] then [[]]
    else
      var rest := Split(s[1..]);
      if s[0] == SLASH then
        assert ([[]] + rest)[1..] == rest;
        [[]] + rest
      else
        var segs := [[s[0]] + rest[0]] + rest[1..];
        assert segs[1..] == rest[1..] && NoSlash(rest[0]);
        segs
  }

  function Join(segs: seq<JsString>): JsString
    requires segs != []
  {
    if |segs| == 1 then segs[0] else segs[0] + [SLASH] + Join(segs[1..])
  }

  predicate HasDoubleStar(s: JsString) {
    exists i | 0 <= i < |s| - 1 :: s[i] == STAR && s[i + 1] == STAR
  }

  lemma {:induction false} TokensWithinSegment(x: JsString)
    requires NoSlash(x) && !HasDoubleStar(x)
    ensures WithinSegment(Tokens(x))
    decreases |x|
  {
    if x != [] {
      assert !(|x| > 1 && x[0] == STAR && x[1] == STAR);
      forall i | 0 <= i < |x[1..]| - 1
        ensures !(x[1..][i] == STAR && x[1..][i + 1] == STAR)
      {
        assert !(x[i + 1] == STAR && x[i + 2] == STAR);
      }
      TokensWithinSegment(x[1..]);
    }
  }

  lemma {:induction false} TokensAcrossSlash(x: JsString, y: JsString)
    ensures Tokens(x + [SLASH] + y) == Tokens(x) + [Lit(SLASH)] + Tokens(y)
    decreases |x|
  {
    var s := x + [SLASH] + y;
    if x == [] {
      assert s[0] == SLASH && s[1..] == y;
    } else {
      var (t, n) := GlobToken(x);
      assert GlobToken(s) == (t, n) && s[n..] == x[n..] + [SLASH] + y;
      hide GlobToken;
      TokensAcrossSlash(x[n..], y);
    }
  }

  ghost predicate GlobMatches(segs: seq<JsString>, path: JsString)
    requires segs != []
  {
    Matches(Tokens(Join(segs)), path)
  }

  lemma GlobMatchesCons(segs: seq<JsString>, head: JsString, tail: JsString)
    requires |segs| > 1
    requires Matches(Tokens(segs[0]), head) && GlobMatches(segs[1..], tail)
    ensures GlobMatches(segs, head + [SLASH] + tail)
  {
    TokensAcrossSlash(segs[0], Join(segs[1..]));
    assert Matches([], []);
    assert [Lit(SLASH)][1..] == [] && [SLASH][1..] == [];
    assert Matches([Lit(SLASH)], [SLASH]);
    MatchesAppend(Tokens(segs[0]), [Lit(SLASH)], head, [SLASH]);
    MatchesAppend(Tokens(segs[0]) + [Lit(SLASH)], Tokens(Join(segs[1..])), head + [SLASH], tail);
  }

  /** A first segment without `**` takes exactly the path up to its first slash. */
  lemma GlobMatchesUncons(segs: seq<JsString>, path: JsString) returns (k: nat)
    requires |segs| > 1 && NoSlash(segs[0]) && !HasDoubleStar(segs[0])
    requires GlobMatches(segs, path)
    ensures k < |path| && path[k] == SLASH && NoSlash(path[..k])
    ensures Matches(Tokens(segs[0]), path[..k]) && GlobMatches(segs[1..], path[k + 1..])
  {
    TokensAcrossSlash(segs[0], Join(segs[1..]));
    var rest := [Lit(SLASH)] + Tokens(Join(segs[1..]));
    assert Tokens(Join(segs)) == Tokens(segs[0]) + rest;
    k := MatchesSplit(Tokens(segs[0]), rest, path);
    assert rest[1..] == Tokens(Join(segs[1..]));
    assert path[k..][1..] == path[k + 1..];
    TokensWithinSegment(segs[0]);
    WithinSegmentMatch(Tokens(segs[0]), path[..k]);
  }

  lemma NoSlashBefore(path: JsString, k: nat)
    requires k <= |path| && NoSlash(path[..k])
    ensures forall i | 0 <= i < k :: path[i] != SLASH
  {
    forall i | 0 <= i < k
      ensures path[i] != SLASH
    {
      assert path[i] in path[..k];
    }
  }

  lemma SlashAt(path: JsString, j: nat, k: nat)
    requires j < |path| && path[j] == SLASH && NoSlash(path[..j])
    requires k < |path| && path[k] == SLASH && NoSlash(path[..k])
    ensures j == k
  {
    NoSlashBefore(path, j);
    NoSlashBefore(path, k);
  }
}
