/** What a glob pattern means (`matchGlob`, src/routePolicy.ts), said of the pattern itself. */
module GlobFormat {
  import opened Glob

  /** A pattern cut at its wildcards, from the left: `**`, or one unit. */
  function Pieces(pattern: JsString): seq<JsString> {
    if pattern == [] then []
    else if |pattern| > 1 && pattern[..2] == [0x2A, 0x2A] then [pattern[..2]] + Pieces(pattern[2..])
    else [pattern[..1]] + Pieces(pattern[1..])
  }

  /** What each piece stands for: a run on one line, a run without slash, one unit that is no slash, or itself. */
  predicate Fits(piece: JsString, part: JsString) {
    if piece == [0x2A, 0x2A] then forall i | 0 <= i < |part| :: part[i] != 0x0A && part[i] != 0x0D && part[i] != 0x2028 && part[i] != 0x2029
    else if piece == [0x2A] then forall i | 0 <= i < |part| :: part[i] != 0x2F
    else if piece == [0x3F] then |part| == 1 && part[0] != 0x2F
    else part == piece
  }

  function Glue(parts: seq<JsString>): JsString { if parts == [] then [] else parts[0] + Glue(parts[1..]) }

  /** Piece by piece, and as many parts as pieces. */
  predicate FitAll(pieces: seq<JsString>, parts: seq<JsString>) {
    if pieces == [] then parts == [] else parts != [] && Fits(pieces[0], parts[0]) && FitAll(pieces[1..], parts[1..])
  }

  lemma FirstPiece(pattern: JsString)
    requires pattern != []
    ensures var (t, n) := GlobToken(pattern);
            Pieces(pattern) == [pattern[..n]] + Pieces(pattern[n..]) && Tokens(pattern) == [t] + Tokens(pattern[n..])
  {
    assert |pattern| > 1 ==> (pattern[..2] == [0x2A, 0x2A] <==> pattern[0] == STAR && pattern[1] == STAR);
  }

  lemma PieceFits(pattern: JsString, part: JsString)
    requires pattern != []
    ensures var (t, n) := GlobToken(pattern);
            Fits(pattern[..n], part) <==> FrontOk(t, part)
  {
    RunsExactly(part);
    hide NoSlash;
    hide OneLine;
    var n := GlobToken(pattern).1;
    assert pattern[..n] == if n == 2 then [STAR, STAR] else [pattern[0]];
  }

  lemma RunsExactly(part: JsString)
    ensures NoSlash(part) <==> forall i | 0 <= i < |part| :: part[i] != 0x2F
    ensures OneLine(part) <==> forall i | 0 <= i < |part| :: part[i] != 0x0A && part[i] != 0x0D && part[i] != 0x2028 && part[i] != 0x2029
  {
    assert forall i | 0 <= i < |part| :: part[i] in part;
  }

  lemma FitStep(piece: JsString, pieces: seq<JsString>, part: JsString, parts: seq<JsString>)
    ensures FitAll([piece] + pieces, [part] + parts) <==> Fits(piece, part) && FitAll(pieces, parts)
    ensures Glue([part] + parts) == part + Glue(parts)
  {
    hide Fits;
    assert ([piece] + pieces)[1..] == pieces && ([part] + parts)[1..] == parts;
  }

  ghost predicate Falls(pattern: JsString, path: JsString) { exists parts :: FitAll(Pieces(pattern), parts) && path == Glue(parts) }

  lemma {:induction false} MatchFalls(pattern: JsString, path: JsString)
    requires Matches(Tokens(pattern), path)
    ensures Falls(pattern, path)
    decreases |pattern|
  {
    hide Matches;
    hide Tokens;
    hide Falls;
    hide FrontOk;
    hide Fits;
    if pattern == [] {
      NoPieces(path);
    } else {
      var n := GlobToken(pattern).1;
      FirstPiece(pattern);
      var k := TakeFront(Tokens(pattern), path);
      PieceFits(pattern, path[..k]);
      hide GlobToken;
      MatchFalls(pattern[n..], path[k..]);
      OnePieceMore(pattern, path, n, k);
    }
  }

  lemma OnePieceMore(pattern: JsString, path: JsString, n: nat, k: nat)
    requires n <= |pattern| && k <= |path| && Pieces(pattern) == [pattern[..n]] + Pieces(pattern[n..])
    requires Fits(pattern[..n], path[..k]) && Falls(pattern[n..], path[k..])
    ensures Falls(pattern, path)
  {
    hide Pieces;
    hide FitAll;
    hide Fits;
    hide Glue;
    var parts :| FitAll(Pieces(pattern[n..]), parts) && path[k..] == Glue(parts);
    FitStep(pattern[..n], Pieces(pattern[n..]), path[..k], parts);
    assert path == path[..k] + path[k..];
  }

  lemma {:induction false} FallMatches(pattern: JsString, parts: seq<JsString>)
    requires FitAll(Pieces(pattern), parts)
    ensures Matches(Tokens(pattern), Glue(parts))
    decreases |pattern|
  {
    if pattern == [] {
      NoPieces([]);
      assert parts == [];
    } else {
      var (t, n) := GlobToken(pattern);
      FirstPiece(pattern);
      var head, rest := parts[0], parts[1..];
      hide Matches;
      hide Tokens;
      hide Pieces;
      hide FrontOk;
      hide FitAll;
      hide GlobToken;
      assert parts == [head] + rest;
      FitStep(pattern[..n], Pieces(pattern[n..]), head, rest);
      hide Glue;
      PieceFits(pattern, head);
      FallMatches(pattern[n..], rest);
      var path := Glue(parts);
      assert path[..|head|] == head && path[|head|..] == Glue(rest);
      GiveFront(Tokens(pattern), path, |head|);
    }
  }

  /** A path matches a pattern exactly when it falls into parts that fit the pieces of the pattern one by one. */
  lemma MatchesExactly(pattern: JsString, path: JsString)
    ensures Matches(Tokens(pattern), path) <==> Falls(pattern, path)
  {
    hide Matches;
    hide FitAll;
    hide Falls;
    if Matches(Tokens(pattern), path) {
      MatchFalls(pattern, path);
    }
    FallsMatch(pattern, path);
  }

  lemma FallsMatch(pattern: JsString, path: JsString)
    ensures Falls(pattern, path) ==> Matches(Tokens(pattern), path)
  {
    hide FitAll;
    hide Matches;
    if Falls(pattern, path) {
      var parts :| FitAll(Pieces(pattern), parts) && path == Glue(parts);
      FallMatches(pattern, parts);
    }
  }

  lemma NoPieces(path: JsString)
    ensures Matches(Tokens([]), path) <==> Falls([], path)
    ensures path == [] ==> Matches(Tokens([]), path)
  {
    assert FitAll(Pieces([]), []) && Glue([]) == [];
  }
}
