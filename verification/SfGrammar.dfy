/** Which texts the structured-field parser takes for which values: the grammar of RFC 8941 as far as
    src/httpMessageSignatures.ts reads it, said of the text itself. */
module SfGrammar {
  import opened Prelude
  import opened Text
  import opened StructuredFields

  predicate IsDigit(c: char) { '0' <= c <= '9' }

  predicate InToken(c: char) {
    'a' <= c <= 'z' || 'A' <= c <= 'Z' || IsDigit(c) || c in {
      ':', '/', '!', '#', '$', '%', '&', '\'', '*', '+', '.', '^', '_', '`', '|', '~', '-'}
  }

  predicate InKey(c: char) { 'a' <= c <= 'z' || IsDigit(c) || c in {'_', '.', '*', '-'} }

  /** The decimal number the digits write. */
  function Decimal(digits: string): nat
    requires forall i | 0 <= i < |digits| :: IsDigit(digits[i])
  {
    if digits == "" then 0
    else
      var n := |digits| - 1;
      assert IsDigit(digits[n]);
      10 * Decimal(digits[..n]) + (digits[n] as int - '0' as int)
  }

  /** A quoted string: printable characters, the quote and the backslash with a backslash before them. */
  predicate IsString(t: string, s: string)
    decreases |t|
  {
    || (s == "" && t == "\"")
    || (s != "" && |t| >= 2 && ' ' <= s[0] <= '~'
        && if s[0] == '\"' || s[0] == '\\' then t[0] == '\\' && t[1] == s[0] && IsString(t[2..], s[1..])
           else t[0] == s[0] && IsString(t[1..], s[1..]))
  }

  /** Up to 15 digits, no more to follow unless 15 are there, and no decimal point with a digit after it. */
  predicate IsNumber(digits: string, rest: string) {
    && 1 <= |digits| <= 15 && (forall i | 0 <= i < |digits| :: IsDigit(digits[i]))
    && (|digits| < 15 ==> rest == "" || !IsDigit(rest[0]))
    && !(|rest| >= 2 && rest[0] == '.' && IsDigit(rest[1]))
  }

  /** `t` writes the value in front of `rest`. */
  predicate Writes(t: string, v: Bare, rest: string, base64: Base64) {
    match v
    case Str(s) => t != "" && t[0] == '\"' && IsString(t[1..], s)
    case Binary(b) => t == ":" + b + ":" && ':' !in b && base64(b)
    case Bool(b) => t == if b then "?1" else "?0"
    case Int(n) =>
      if t != "" && t[0] == '-' then IsNumber(t[1..], rest) && n == 0 - Decimal(t[1..]) else IsNumber(t, rest) && n == Decimal(t)
    case Token(name) =>
      && t == name != "" && ('a' <= t[0] <= 'z' || 'A' <= t[0] <= 'Z' || t[0] == '*')
      && (forall i | 0 <= i < |t| :: InToken(t[i])) && (rest == "" || !InToken(rest[0]))
  }

  // ---------------------------------------------------------------------------
  // Strings
  // ---------------------------------------------------------------------------

  /** What was taken off the front of `u` when `rest` is left. */
  function Front(u: string, rest: string): string { if |rest| <= |u| then u[..|u| - |rest|] else u }

  predicate Leaves(u: string, rest: string) { |rest| <= |u| && u[|u| - |rest|..] == rest }

  lemma {:induction false} BodySound(u: string)
    requires ParseStringBody(u).Ok?
    ensures var r := ParseStringBody(u).value;
            Leaves(u, r.rest) && IsString(Front(u, r.rest), r.value)
    decreases |u|
  {
    match StringUnit(u)
    case Close =>
      assert Front(u, u[1..]) == "\"";
    case One(c, width) =>
      BodySound(u[width..]);
      var r := ParseStringBody(u[width..]).value;
      var t := Front(u, r.rest);
      assert t == u[..width] + Front(u[width..], r.rest);
      assert t[width..] == Front(u[width..], r.rest);
      assert ([c] + r.value)[1..] == r.value;
  }

  lemma {:induction false} BodyComplete(t: string, s: string, rest: string)
    requires IsString(t, s)
    ensures ParseStringBody(t + rest) == Ok(Parsed(s, rest))
    decreases |t|
  {
    hide IsString;
    hide ParseStringBody;
    hide StringUnit;
    if s == "" {
      BodyEnds(t, rest);
    } else {
      var width := Width(s[0]);
      NotShort(t, s);
      FrontWritten(t, s);
      BodyComplete(t[width..], s[1..], rest);
      OneUnit(t, s[0], rest);
      assert (t + rest)[width..] == t[width..] + rest;
      assert [s[0]] + s[1..] == s;
      BodyTurn(t + rest, s[0], width, s[1..], rest);
    }
  }

  lemma BodyTurn(u: string, c: char, width: nat, s: string, rest: string)
    requires StringUnit(u) == One(c, width) && ParseStringBody(u[width..]) == Ok(Parsed(s, rest))
    ensures ParseStringBody(u) == Ok(Parsed([c] + s, rest))
  {
    hide StringUnit;
  }

  lemma BodyEnds(t: string, rest: string)
    requires IsString(t, "")
    ensures ParseStringBody(t + rest) == Ok(Parsed("", rest))
  {
    assert (t + rest)[0] == '\"' && (t + rest)[1..] == rest;
  }

  lemma NotShort(t: string, s: string)
    requires s != "" && IsString(t, s)
    ensures |t| >= Width(s[0])
  {
  }

  lemma FrontWritten(t: string, s: string)
    requires s != "" && IsString(t, s) && |t| >= Width(s[0])
    ensures ' ' <= s[0] <= '~' && t[..Width(s[0])] == Spelled(s[0]) && IsString(t[Width(s[0])..], s[1..])
  {
  }

  lemma OneUnit(t: string, c: char, rest: string)
    requires |t| >= Width(c) && t[..Width(c)] == Spelled(c) && ' ' <= c <= '~'
    ensures StringUnit(t + rest) == One(c, Width(c))
  {
    assert t[0] == t[..Width(c)][0] && (t + rest)[0] == t[0];
    assert Width(c) == 2 ==> t[1] == t[..2][1] && (t + rest)[1] == t[1];
  }

  function Width(c: char): nat { if c == '\"' || c == '\\' then 2 else 1 }

  function Spelled(c: char): string { if c == '\"' || c == '\\' then ['\\', c] else [c] }

  /** A printable text is quoted in just one way. */
  lemma {:induction false} QuoteExactly(t: string, s: string)
    requires Printable(s)
    ensures IsString(t, s) <==> t == EscapeRest(s)
    decreases |s|
  {
    if s != "" {
      var width := Width(s[0]);
      assert s[0] in s && forall c | c in s[1..] :: c in s;
      EscapedFront(s);
      if |t| >= width {
        QuoteExactly(t[width..], s[1..]);
        WrittenFront(t, s);
        assert t == t[..width] + t[width..];
      }
      hide EscapeRest;
      hide IsString;
      if |t| < width {
        TooShort(t, s);
      }
    }
  }

  lemma EscapedFront(s: string)
    requires s != ""
    ensures EscapeRest(s) == Spelled(s[0]) + EscapeRest(s[1..]) && |Spelled(s[0])| == Width(s[0])
    ensures |EscapeRest(s)| > Width(s[0])
  {
    assert |EscapeRest(s[1..])| >= 1;
  }

  lemma WrittenFront(t: string, s: string)
    requires s != "" && ' ' <= s[0] <= '~' && |t| >= Width(s[0])
    ensures IsString(t, s) <==> t[..Width(s[0])] == Spelled(s[0]) && IsString(t[Width(s[0])..], s[1..])
  {
    NotEmpty(t[Width(s[0])..], s[1..]);
  }

  lemma NotEmpty(t: string, s: string)
    ensures IsString(t, s) ==> t != ""
  {
  }

  lemma TooShort(t: string, s: string)
    requires s != "" && |t| < Width(s[0])
    ensures !IsString(t, s)
  {
  }

  // ---------------------------------------------------------------------------
  // Numbers
  // ---------------------------------------------------------------------------

  lemma {:induction false} DecimalIsValue(digits: string)
    requires All(digits, Digit)
    ensures forall i | 0 <= i < |digits| :: IsDigit(digits[i])
    ensures Decimal(digits) == NatValue(digits)
  {
    assert forall i | 0 <= i < |digits| :: digits[i] in digits;
    if digits != "" {
      DecimalIsValue(digits[..|digits| - 1]);
    }
  }

  /** A number is printed as its decimal digits, without leading zeros. */
  lemma {:induction false} PrintedDecimal(n: nat)
    ensures var t := NatText(n);
            && (forall i | 0 <= i < |t| :: IsDigit(t[i])) && Decimal(t) == n && (t[0] == '0' ==> t == "0")
    decreases n
  {
    DecimalIsValue(NatText(n));
    NatTextValue(n);
    hide Decimal;
    hide NatValue;
    if n >= 10 {
      PrintedDecimal(n / 10);
      assert Decimal("0") == 0 by { DecimalOfZero(); }
    }
  }

  lemma DecimalOfZero()
    ensures Decimal("0") == 0
  {
    assert "0"[..0] == "" && Decimal("") == 0;
  }

  lemma DigitsSound(u: string, negative: bool)
    ensures match ParseDigits(u, negative) {
              case Some(Ok(Parsed(n, rest))) =>
                && Leaves(u, rest) && IsNumber(Front(u, rest), rest)
                && n == (if negative then -(Decimal(Front(u, rest)) as int) else Decimal(Front(u, rest)))
              case Some(Err(_)) => true
              case None => u == "" || !IsDigit(u[0])
            }
  {
    var n := Run(u, Digit);
    var d := if n > 15 then 15 else n;
    if d > 0 {
      var t, rest := u[..d], u[d..];
      assert forall c | c in t :: c in u[..n];
      DecimalIsValue(t);
      assert Front(u, rest) == t;
      if d < n {
        assert u[..n][d] == u[d] && u[d] in u[..n];
      }
    }
  }

  lemma DigitsComplete(t: string, rest: string, negative: bool)
    requires IsNumber(t, rest)
    ensures ParseDigits(t + rest, negative) == Some(Ok(Parsed(if negative then -(Decimal(t) as int) else Decimal(t), rest)))
  {
    var u := t + rest;
    var n := Run(u, Digit);
    assert All(t, Digit);
    DecimalIsValue(t);
    RunAtLeast(u, |t|, Digit);
    assert u[..|t|] == t && u[|t|..] == rest;
    if |t| < 15 {
      RunBack(t, rest, Digit);
    }
    assert rest != "" ==> u[|t|] == rest[0];
    assert |rest| >= 2 ==> u[|t| + 1] == rest[1];
    hide Run;
    hide Decimal;
    hide NatValue;
  }

  lemma {:induction false} RunAtLeast(u: string, k: nat, p: char -> bool)
    requires k <= |u| && All(u[..k], p)
    ensures Run(u, p) >= k
    decreases k
  {
    if k > 0 {
      assert u[0] in u[..k];
      assert forall c | c in u[1..][..k - 1] :: c in u[..k];
      RunAtLeast(u[1..], k - 1, p);
    }
  }

  // ---------------------------------------------------------------------------
  // Items
  // ---------------------------------------------------------------------------

  lemma {:induction false} FindExactly(u: string, c: char)
    ensures var n := Find(u, c);
            c !in u[..n] && (n < |u| ==> u[n] == c)
  {
    if u != "" && u[0] != c {
      FindExactly(u[1..], c);
      var n := Find(u[1..], c);
      assert u[..n + 1] == [u[0]] + u[1..][..n];
    }
  }

  lemma {:induction false} FindBack(a: string, c: char, rest: string)
    requires c !in a
    ensures Find(a + [c] + rest, c) == |a|
  {
    var u := a + [c] + rest;
    if a != "" {
      assert u[0] == a[0] && u[1..] == a[1..] + [c] + rest && a[0] in a;
      assert forall x | x in a[1..] :: x in a;
      FindBack(a[1..], c, rest);
    }
  }

  lemma TokenChars(t: string)
    requires t != ""
    ensures All(t, TokenChar) <==> forall i | 0 <= i < |t| :: InToken(t[i])
  {
    if All(t, TokenChar) {
      assert forall i | 0 <= i < |t| :: t[i] in t;
    }
  }

  lemma BinarySound(u: string, base64: Base64)
    requires Starts(u, ':') && ParseBare(u, base64).Ok?
    ensures var r := ParseBare(u, base64).value; Leaves(u, r.rest) && Writes(Front(u, r.rest), r.value, r.rest, base64)
  {
    var n := Find(u[1..], ':');
    FindExactly(u[1..], ':');
    assert u[..n + 2] == ":" + u[1..][..n] + ":";
    assert u[1..][n + 1..] == u[n + 2..];
  }

  lemma BareToken(u: string, base64: Base64)
    requires u != "" && TokenStart(u[0])
    ensures var n := 1 + Run(u[1..], TokenChar);
            ParseBare(u, base64) == Ok(Parsed(Token(u[..n]), u[n..]))
  {
    hide Run;
    hide TokenChar;
    hide ParseStringBody;
    NotNumber(u);
  }

  lemma NotNumber(u: string)
    requires u != "" && !Digit(u[0]) && u[0] != '-'
    ensures ParseNumber(u) == None
  {
  }

  lemma TokenSound(u: string, base64: Base64)
    requires u != "" && TokenStart(u[0])
    ensures ParseBare(u, base64).Ok?
    ensures var r := ParseBare(u, base64).value; Leaves(u, r.rest) && Writes(Front(u, r.rest), r.value, r.rest, base64)
  {
    BareToken(u, base64);
    hide ParseBare;
    var n := 1 + Run(u[1..], TokenChar);
    var t, rest := u[..n], u[n..];
    assert t == [u[0]] + u[1..][..n - 1] && u[1..][n - 1..] == rest;
    assert t == Front(u, rest);
    hide Run;
    assert All(t, TokenChar) && Boundary(rest, TokenChar);
    TokenChars(t);
    TokenEnds(rest);
    hide TokenChar;
    hide InToken;
  }

  lemma TokenEnds(rest: string)
    ensures Boundary(rest, TokenChar) <==> rest == "" || !InToken(rest[0])
  {
  }

  lemma NumberSound(u: string, base64: Base64)
    requires ParseBare(u, base64).Ok? && ParseBare(u, base64).value.value.Int?
    ensures var r := ParseBare(u, base64).value; Leaves(u, r.rest) && Writes(Front(u, r.rest), r.value, r.rest, base64)
  {
    hide Run;
    hide Decimal;
    hide ParseStringBody;
    hide ParseDigits;
    var r := ParseBare(u, base64).value;
    if Starts(u, '-') {
      DigitsSound(u[1..], true);
      assert Front(u, r.rest) == "-" + Front(u[1..], r.rest);
      assert Front(u, r.rest)[1..] == Front(u[1..], r.rest);
    } else {
      DigitsSound(u, false);
    }
  }

  /** What is parsed was written there. */
  lemma BareSound(u: string, base64: Base64)
    requires ParseBare(u, base64).Ok?
    ensures var r := ParseBare(u, base64).value; Leaves(u, r.rest) && Writes(Front(u, r.rest), r.value, r.rest, base64)
  {
    var r := ParseBare(u, base64).value;
    if Starts(u, '\"') {
      BodySound(u[1..]);
      assert Front(u, r.rest) == "\"" + Front(u[1..], r.rest);
      assert Front(u, r.rest)[1..] == Front(u[1..], r.rest);
    } else if Starts(u, ':') {
      BinarySound(u, base64);
    } else if r.value.Int? {
      NumberSound(u, base64);
    } else if Starts(u, '?') {
      assert Front(u, r.rest) == u[..2];
    } else {
      TokenSound(u, base64);
    }
  }

  lemma TokenComplete(t: string, rest: string, base64: Base64)
    requires Writes(t, Token(t), rest, base64)
    ensures ParseBare(t + rest, base64) == Ok(Parsed(Token(t), rest))
  {
    var u := t + rest;
    TokenChars(t);
    TokenEnds(rest);
    assert u[0] == t[0] && u[1..] == t[1..] + rest;
    assert forall c | c in t[1..] :: c in t;
    hide InToken;
    hide TokenChar;
    hide ParseBare;
    RunBack(t[1..], rest, TokenChar);
    assert u[..|t|] == t && u[|t|..] == rest;
    BareToken(u, base64);
  }

  lemma IntComplete(t: string, n: int, rest: string, base64: Base64)
    requires Writes(t, Int(n), rest, base64)
    ensures ParseBare(t + rest, base64) == Ok(Parsed(Int(n), rest))
  {
    hide ParseDigits;
    hide Decimal;
    hide Run;
    hide ParseStringBody;
    var u := t + rest;
    assert u[0] == t[0];
    if t[0] == '-' {
      assert u[1..] == t[1..] + rest;
      DigitsComplete(t[1..], rest, true);
    } else {
      DigitsComplete(t, rest, false);
    }
  }

  lemma StringComplete(t: string, s: string, rest: string, base64: Base64)
    requires Writes(t, Str(s), rest, base64)
    ensures ParseBare(t + rest, base64) == Ok(Parsed(Str(s), rest))
  {
    hide IsString;
    hide ParseStringBody;
    hide ParseBare;
    BodyComplete(t[1..], s, rest);
    assert (t + rest)[0] == t[0] && (t + rest)[1..] == t[1..] + rest;
    BareString(t + rest, base64);
  }

  lemma BinaryComplete(b: string, rest: string, base64: Base64)
    requires ':' !in b && base64(b)
    ensures ParseBare(":" + b + ":" + rest, base64) == Ok(Parsed(Binary(b), rest))
  {
    hide Find;
    hide ParseNumber;
    hide ParseString;
    var u := ":" + b + ":" + rest;
    assert u[0] == ':' && u[1..] == b + ":" + rest;
    FindBack(b, ':', rest);
    assert u[1..][..|b|] == b && u[1..][|b| + 1..] == rest;
  }

  lemma BareComplete(t: string, v: Bare, rest: string, base64: Base64)
    requires Writes(t, v, rest, base64)
    ensures ParseBare(t + rest, base64) == Ok(Parsed(v, rest))
  {
    match v
    case Str(s) => StringComplete(t, s, rest, base64);
    case Binary(b) => BinaryComplete(b, rest, base64);
    case Bool(b) => BooleanComplete(t, b, rest, base64);
    case Int(n) => IntComplete(t, n, rest, base64);
    case Token(name) => TokenComplete(t, rest, base64);
  }

  lemma BooleanComplete(t: string, b: bool, rest: string, base64: Base64)
    requires t == if b then "?1" else "?0"
    ensures ParseBare(t + rest, base64) == Ok(Parsed(Bool(b), rest))
  {
    hide ParseNumber;
    hide ParseString;
    var u := t + rest;
    assert u[0] == '?' && u[1] == t[1] && u[2..] == rest;
  }

  /** An item is parsed as a value exactly when the text writes it. */
  lemma BareExactly(t: string, v: Bare, rest: string, base64: Base64)
    ensures ParseBare(t + rest, base64) == Ok(Parsed(v, rest)) <==> Writes(t, v, rest, base64)
  {
    if Writes(t, v, rest, base64) {
      BareComplete(t, v, rest, base64);
    }
    hide ParseBare;
    hide Writes;
    if ParseBare(t + rest, base64) == Ok(Parsed(v, rest)) {
      BareSound(t + rest, base64);
      assert Front(t + rest, rest) == t;
    }
  }

  // ---------------------------------------------------------------------------
  // Parameters
  // ---------------------------------------------------------------------------

  function Spaces(k: nat): string { seq(k, _ => ' ') }

  predicate IsKey(k: string, rest: string) {
    && k != "" && ('a' <= k[0] <= 'z' || k[0] == '*')
    && (forall i | 0 <= i < |k| :: InKey(k[i])) && (rest == "" || !InKey(rest[0]))
  }

  /** `u` starts with the parameter, spaces before it, and goes on with `rest`: a key alone stands for true. */
  ghost predicate StartsWithParam(u: string, p: Param, rest: string, base64: Base64) {
    exists k: nat, tail: string ::
      && u == Spaces(k) + p.key + tail && IsKey(p.key, tail)
      && if tail != "" && tail[0] == '=' then exists t :: tail == "=" + t + rest && Writes(t, p.value, rest, base64)
         else p.value == Bool(true) && tail == rest
  }

  /** `u` starts with the parameters, each after a semicolon, and goes on with `rest`. */
  ghost predicate StartsWithParams(u: string, ps: seq<Param>, rest: string, base64: Base64)
    decreases |ps|
  {
    if ps == [] then u == rest && (u == "" || u[0] != ';')
    else
      && u != "" && u[0] == ';'
      && exists mid :: StartsWithParam(u[1..], ps[0], mid, base64) && StartsWithParams(mid, ps[1..], rest, base64)
  }

  lemma {:induction false} SkipExactly(u: string) returns (k: nat)
    ensures u == Spaces(k) + SkipSpaces(u) && (SkipSpaces(u) == "" || SkipSpaces(u)[0] != ' ')
  {
    if u != "" && u[0] == ' ' {
      var j := SkipExactly(u[1..]);
      k := j + 1;
      assert Spaces(k) == " " + Spaces(j);
      assert u == [u[0]] + u[1..];
    } else {
      k := 0;
    }
  }

  lemma {:induction false} SkipBack(k: nat, tail: string)
    requires tail == "" || tail[0] != ' '
    ensures SkipSpaces(Spaces(k) + tail) == tail
  {
    if k > 0 {
      assert (Spaces(k) + tail)[0] == ' ' && (Spaces(k) + tail)[1..] == Spaces(k - 1) + tail;
      SkipBack(k - 1, tail);
    } else {
      assert Spaces(0) + tail == tail;
    }
  }

  lemma KeyChars(k: string, rest: string)
    ensures KeyOk(k) && Boundary(rest, KeyChar) <==> IsKey(k, rest)
  {
    if KeyOk(k) {
      assert forall i | 0 <= i < |k| :: k[i] in k;
    }
  }

  lemma KeySound(u: string)
    requires ParseKey(u).Ok?
    ensures var r := ParseKey(u).value; u == r.value + r.rest && IsKey(r.value, r.rest)
  {
    var n := 1 + Run(u[1..], KeyChar);
    assert u[..n] == [u[0]] + u[1..][..n - 1] && u[1..][n - 1..] == u[n..];
    KeyChars(u[..n], u[n..]);
  }

  lemma ParamSound(u: string, base64: Base64)
    requires ParseParam(u, base64).Ok?
    ensures var r := ParseParam(u, base64).value; StartsWithParam(u, r.value, r.rest, base64)
  {
    hide ParseBare;
    hide ParseKey;
    hide Writes;
    hide IsKey;
    var k := SkipExactly(u);
    KeySound(SkipSpaces(u));
    var key := ParseKey(SkipSpaces(u)).value;
    Regroup(Spaces(k), key.value, key.rest);
    var r := ParseParam(u, base64).value;
    if Starts(key.rest, '=') {
      BareSound(key.rest[1..], base64);
      var t := Front(key.rest[1..], r.rest);
      assert key.rest == "=" + t + r.rest;
    }
  }

  lemma ParamComplete(u: string, p: Param, rest: string, base64: Base64)
    requires StartsWithParam(u, p, rest, base64)
    ensures ParseParam(u, base64) == Ok(Parsed(p, rest))
  {
    hide ParseBare;
    hide Writes;
    hide IsKey;
    var k: nat, tail: string :| u == Spaces(k) + p.key + tail && IsKey(p.key, tail)
      && if tail != "" && tail[0] == '=' then exists t :: tail == "=" + t + rest && Writes(t, p.value, rest, base64)
         else p.value == Bool(true) && tail == rest;
    Regroup(Spaces(k), p.key, tail);
    KeyTaken(k, p.key, tail);
    hide ParseKey;
    hide SkipSpaces;
    hide Spaces;
    if tail != "" && tail[0] == '=' {
      ValueTaken(tail, p.value, rest, base64);
    }
  }

  lemma ValueTaken(tail: string, v: Bare, rest: string, base64: Base64)
    requires tail != "" && exists t :: tail == "=" + t + rest && Writes(t, v, rest, base64)
    ensures ParseBare(tail[1..], base64) == Ok(Parsed(v, rest))
  {
    hide ParseBare;
    hide Writes;
    var t :| tail == "=" + t + rest && Writes(t, v, rest, base64);
    assert tail[1..] == t + rest;
    BareComplete(t, v, rest, base64);
  }

  lemma KeyTaken(k: nat, key: string, tail: string)
    requires IsKey(key, tail)
    ensures ParseKey(SkipSpaces(Spaces(k) + (key + tail))) == Ok(Parsed(key, tail))
  {
    KeyChars(key, tail);
    KeyBack(key, tail);
    assert (key + tail)[0] == key[0];
    SkipBack(k, key + tail);
  }

  /** Parameters are parsed exactly when the text writes them. */
  lemma {:induction false} ParamsExactly(u: string, ps: seq<Param>, rest: string, base64: Base64)
    ensures ParseParams(u, base64) == Ok(Parsed(ps, rest)) <==> StartsWithParams(u, ps, rest, base64)
    decreases |u|
  {
    hide ParseParam;
    hide StartsWithParam;
    if Starts(u, ';') {
      if ParseParam(u[1..], base64).Ok? {
        ParamSound(u[1..], base64);
        var first := ParseParam(u[1..], base64).value;
        forall mid: string, p
          ensures StartsWithParam(u[1..], p, mid, base64) ==> p == first.value && mid == first.rest
        {
          if StartsWithParam(u[1..], p, mid, base64) {
            ParamComplete(u[1..], p, mid, base64);
          }
        }
        if ps != [] {
          ParamsExactly(first.rest, ps[1..], rest, base64);
          assert ps == [ps[0]] + ps[1..];
        }
        assert forall qs: seq<Param> :: ([first.value] + qs)[1..] == qs;
      } else {
        forall mid: string, p
          ensures !StartsWithParam(u[1..], p, mid, base64)
        {
          if StartsWithParam(u[1..], p, mid, base64) {
            ParamComplete(u[1..], p, mid, base64);
          }
        }
      }
    }
  }
}
