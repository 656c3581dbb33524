/** The subset of structured fields (RFC 8941) that src/httpMessageSignatures.ts prints and parses: what a parser
    takes off the front of a text, as functions of the text that is left. */
module StructuredFields {
  import opened Prelude
  import opened Text

  datatype Fault =
    | MalformedField | NonAsciiValue | UnsupportedParameter | TooManyComponents | DuplicateParameter | MalformedParameter

  /** Byte sequences are named by their base64 text. */
  datatype Bare = Str(s: string) | Int(n: int) | Bool(b: bool) | Token(t: string) | Binary(base64: string)

  datatype Param = Param(key: string, value: Bare)

  /** Something parsed, and the text after it. */
  datatype Parsed<+T> = Parsed(value: T, rest: string)

  predicate Printable(s: string) { forall c | c in s :: ' ' <= c <= '~' }

  predicate KeyStart(c: char) { 'a' <= c <= 'z' || c == '*' }

  predicate KeyChar(c: char) { KeyStart(c) || Digit(c) || c == '_' || c == '.' || c == '-' }

  predicate TokenStart(c: char) { 'a' <= c <= 'z' || 'A' <= c <= 'Z' || c == '*' }

  predicate TokenChar(c: char) {
    TokenStart(c) || Digit(c) || c in ":/!#$%&'*+.^_`|~-"
  }

  /** The length of the longest run of `p` at the front. */
  function Run(s: string, p: char -> bool): (n: nat)
    ensures n <= |s| && All(s[..n], p) && Boundary(s[n..], p)
  {
    if s == "" || !p(s[0]) then 0
    else
      var n := 1 + Run(s[1..], p);
      assert s[..n] == [s[0]] + s[1..][..n - 1] && s[n..] == s[1..][n - 1..];
      n
  }

  /** `indexOf`, or the length of the text. */
  function Find(s: string, c: char): (n: nat)
    ensures n <= |s|
  {
    if s == "" || s[0] == c then 0 else 1 + Find(s[1..], c)
  }

  function SkipSpaces(s: string): (r: string)
    ensures |r| <= |s|
  {
    if s != "" && s[0] == ' ' then SkipSpaces(s[1..]) else s
  }

  // ---------------------------------------------------------------------------
  // Parsing
  // ---------------------------------------------------------------------------

  function Starts(s: string, c: char): bool { s != "" && s[0] == c }

  function ParseKey(s: string): (r: Result<Parsed<string>, Fault>)
    ensures r.Ok? ==> |r.value.rest| < |s|
  {
    if s == "" || !KeyStart(s[0]) then Err(MalformedField)
    else
      var n := 1 + Run(s[1..], KeyChar);
      Ok(Parsed(s[..n], s[n..]))
  }

  /** What comes next in a quoted string: a character and how it is spelt, or the end. */
  datatype Unit = Close | Bad | One(c: char, width: nat)

  function StringUnit(s: string): (u: Unit)
    ensures u.One? ==> 1 <= u.width <= |s|
    ensures u.Close? ==> s != ""
  {
    if s == "" then Bad
    else if s[0] == '\\' then
      if |s| < 2 || (s[1] != '\"' && s[1] != '\\') then Bad else One(s[1], 2)
    else if s[0] == '\"' then Close
    else if !(' ' <= s[0] <= '~') then Bad
    else One(s[0], 1)
  }

  function ParseStringBody(s: string): (r: Result<Parsed<string>, Fault>)
    ensures r.Ok? ==> |r.value.rest| < |s|
    decreases |s|
  {
    match StringUnit(s)
    case Bad => Err(MalformedField)
    case Close => Ok(Parsed("", s[1..]))
    case One(c, width) =>
      var r :- ParseStringBody(s[width..]);
      Ok(Parsed([c] + r.value, r.rest))
  }

  function ParseString(s: string): (r: Result<Parsed<string>, Fault>)
    ensures r.Ok? ==> |r.value.rest| < |s|
  {
    if !Starts(s, '\"') then Err(MalformedField) else ParseStringBody(s[1..])
  }

  /** At most 15 digits, `None` when there is none. A decimal point makes it an error. */
  function ParseDigits(t: string, negative: bool): (r: Option<Result<Parsed<int>, Fault>>)
    ensures r.Some? && r.value.Ok? ==> |r.value.value.rest| < |t|
  {
    var n := Run(t, Digit);
    var d := if n > 15 then 15 else n;
    if d == 0 then None
    else if |t| > d + 1 && t[d] == '.' && Digit(t[d + 1]) then Some(Err(MalformedField))
    else
      assert forall c | c in t[..d] :: c in t[..n];
      var v: int := NatValue(t[..d]);
      Some(Ok(Parsed(if negative then -v else v, t[d..])))
  }

  /** An integer, if the text starts with one. */
  function ParseNumber(s: string): (r: Option<Result<Parsed<int>, Fault>>)
    ensures r.Some? && r.value.Ok? ==> |r.value.value.rest| < |s|
  {
    if Starts(s, '-') then ParseDigits(s[1..], true) else ParseDigits(s, false)
  }

  type Base64 = string -> bool

  function ParseBare(s: string, base64: Base64): (r: Result<Parsed<Bare>, Fault>)
    ensures r.Ok? ==> |r.value.rest| < |s|
  {
    if Starts(s, '\"') then
      var r :- ParseString(s);
      Ok(Parsed(Str(r.value), r.rest))
    else if Starts(s, ':') then
      var end := Find(s[1..], ':');
      if end == |s[1..]| || !base64(s[1..][..end]) then Err(MalformedField)
      else Ok(Parsed(Binary(s[1..][..end]), s[1..][end + 1..]))
    else if Starts(s, '?') then
      if |s| < 2 || (s[1] != '0' && s[1] != '1') then Err(MalformedField) else Ok(Parsed(Bool(s[1] == '1'), s[2..]))
    else
      match ParseNumber(s)
      case Some(Err(f)) => Err(f)
      case Some(Ok(p)) => Ok(Parsed(Int(p.value), p.rest))
      case None =>
        if s == "" || !TokenStart(s[0]) then Err(MalformedField)
        else
          var n := 1 + Run(s[1..], TokenChar);
          Ok(Parsed(Token(s[..n]), s[n..]))
  }

  /** One parameter, after its semicolon. */
  function ParseParam(s: string, base64: Base64): (r: Result<Parsed<Param>, Fault>)
    ensures r.Ok? ==> |r.value.rest| < |s|
  {
    var k :- ParseKey(SkipSpaces(s));
    if !Starts(k.rest, '=') then Ok(Parsed(Param(k.value, Bool(true)), k.rest))
    else
      var v :- ParseBare(k.rest[1..], base64);
      Ok(Parsed(Param(k.value, v.value), v.rest))
  }

  function ParseParams(s: string, base64: Base64): (r: Result<Parsed<seq<Param>>, Fault>)
    ensures r.Ok? ==> |r.value.rest| <= |s|
    decreases |s|
  {
    if !Starts(s, ';') then Ok(Parsed([], s))
    else
      var first :- ParseParam(s[1..], base64);
      var others :- ParseParams(first.rest, base64);
      Ok(Parsed([first.value] + others.value, others.rest))
  }

  // ---------------------------------------------------------------------------
  // Printing
  // ---------------------------------------------------------------------------

  function EscapeRest(s: string): string {
    if s == "" then "\""
    else (if s[0] == '\\' || s[0] == '\"' then ['\\', s[0]] else [s[0]]) + EscapeRest(s[1..])
  }

  /** `sfString`. */
  function Quote(s: string): Result<string, Fault> {
    if Printable(s) then Ok("\"" + EscapeRest(s)) else Err(NonAsciiValue)
  }

  /** The value part of a parameter this code prints: absent for `true`, a string, or an integer. */
  function ValueText(v: Bare): string {
    match v
    case Str(s) => "=\"" + EscapeRest(s)
    case Int(n) => "=" + IntText(n)
    case _ => ""
  }

  function ParamText(p: Param): string { ";" + (p.key + ValueText(p.value)) }

  function ParamsText(ps: seq<Param>): string {
    if ps == [] then "" else ParamText(ps[0]) + ParamsText(ps[1..])
  }

  predicate KeyOk(k: string) { k != "" && KeyStart(k[0]) && All(k, KeyChar) }

  /** Integers the grammar can hold: 15 digits. */
  predicate IntOk(n: int) { -1_000_000_000_000_000 < n < 1_000_000_000_000_000 }

  predicate ValueOk(v: Bare) {
    match v
    case Str(s) => Printable(s)
    case Int(n) => IntOk(n)
    case Bool(b) => b
    case _ => false
  }

  predicate ParamOk(p: Param) { KeyOk(p.key) && ValueOk(p.value) }

  /** What may follow a parameter: another one, or the end of what it belongs to. */
  predicate Ends(rest: string) { rest == "" || rest[0] == ' ' || rest[0] == ')' || rest[0] == ':' }

  predicate Follows(rest: string) { Ends(rest) || rest[0] == ';' }

  // ---------------------------------------------------------------------------
  // Parsing what was printed
  // ---------------------------------------------------------------------------

  lemma {:induction false} BodyBack(s: string, rest: string)
    requires Printable(s)
    ensures ParseStringBody(EscapeRest(s) + rest) == Ok(Parsed(s, rest))
  {
    if s == "" {
      assert ("\"" + rest)[0] == '\"' && ("\"" + rest)[1..] == rest;
    } else {
      assert s[0] in s && forall c | c in s[1..] :: c in s;
      BodyBack(s[1..], rest);
      BodyStep(s, rest);
      assert s == [s[0]] + s[1..];
    }
  }

  lemma BodyStep(s: string, rest: string)
    requires s != "" && ' ' <= s[0] <= '~'
    ensures ParseStringBody(EscapeRest(s) + rest)
            == match ParseStringBody(EscapeRest(s[1..]) + rest)
               case Err(f) => Err(f)
               case Ok(Parsed(t, end)) => Ok(Parsed([s[0]] + t, end))
  {
    var t, tail := EscapeRest(s) + rest, EscapeRest(s[1..]) + rest;
    if s[0] == '\\' || s[0] == '\"' {
      assert t[0] == '\\' && t[1] == s[0] && t[2..] == tail;
      assert StringUnit(t) == One(s[0], 2);
    } else {
      assert t[0] == s[0] && t[1..] == tail;
      assert StringUnit(t) == One(s[0], 1);
    }
  }

  lemma StringBack(s: string, rest: string)
    requires Printable(s)
    ensures ParseString("\"" + EscapeRest(s) + rest) == Ok(Parsed(s, rest))
  {
    BodyBack(s, rest);
    Regroup("\"", EscapeRest(s), rest);
    DropPrefix("\"", EscapeRest(s), rest);
  }

  /** A maximal run is found again. */
  lemma RunBack(a: string, rest: string, p: char -> bool)
    requires All(a, p) && Boundary(rest, p)
    ensures Run(a + rest, p) == |a|
  {
    var s := a + rest;
    var n := Run(s, p);
    assert s == s[..n] + s[n..];
    Munch(s[..n], s[n..], a, rest, p);
  }

  lemma KeyBack(k: string, rest: string)
    requires KeyOk(k) && Boundary(rest, KeyChar)
    ensures ParseKey(k + rest) == Ok(Parsed(k, rest)) && SkipSpaces(k + rest) == k + rest
  {
    var s := k + rest;
    assert s[0] == k[0] && s[1..] == k[1..] + rest;
    assert forall c | c in k[1..] :: c in k;
    RunBack(k[1..], rest, KeyChar);
    assert s[..|k|] == k && s[|k|..] == rest;
  }

  lemma {:induction false} NatTextLength(n: nat, d: nat)
    requires d >= 1 && n < Pow10(d)
    ensures |NatText(n)| <= d
    decreases d
  {
    if n >= 10 {
      assert d > 1;
      NatTextLength(n / 10, d - 1);
    }
  }

  lemma {:induction false} NatTextLong(n: nat, d: nat)
    requires n >= Pow10(d)
    ensures |NatText(n)| > d
    decreases d
  {
    if d > 0 {
      assert n / 10 >= Pow10(d - 1);
      NatTextLong(n / 10, d - 1);
    }
  }

  function Pow10(d: nat): (p: nat)
    ensures p > 0
  {
    if d == 0 then 1 else 10 * Pow10(d - 1)
  }

  lemma Pow10Of15()
    ensures Pow10(15) == 1_000_000_000_000_000
  {
    assert Pow10(5) == 100_000;
    assert Pow10(10) == 10_000_000_000;
  }

  lemma DigitsOf(n: int, rest: string)
    ensures var digits, s := NatText(if n < 0 then -n else n), IntText(n) + rest;
            && s != "" && (Starts(s, '-') <==> n < 0)
            && (if n < 0 then s[1..] else s) == digits + rest
  {
    var digits := NatText(if n < 0 then -n else n);
    assert digits[0] in digits;
    assert (IntText(n) + rest)[0] == IntText(n)[0];
  }

  lemma DigitsBack(m: nat, negative: bool, rest: string)
    requires Follows(rest)
    ensures var r := ParseDigits(NatText(m) + rest, negative);
            if m < Pow10(15) then r == Some(Ok(Parsed(if negative then -(m as int) else m, rest)))
            else r.Some? && r.value.Ok? && r.value.value.rest != "" && Digit(r.value.value.rest[0])
  {
    hide NatText;
    hide NatValue;
    hide Pow10;
    hide Follows;
    hide Run;
    var digits := NatText(m);
    if m < Pow10(15) {
      NatTextLength(m, 15);
    } else {
      NatTextLong(m, 15);
    }
    NatTextValue(m);
    FollowsNumber(rest);
    RunBack(digits, rest, Digit);
    Taken(digits, rest, if |digits| > 15 then 15 else |digits|);
  }

  /** How a printed integer is read: whole when it has at most 15 digits, and cut after 15 otherwise. */
  lemma NumberBack(n: int, rest: string)
    requires Follows(rest)
    ensures IntOk(n) ==> ParseNumber(IntText(n) + rest) == Some(Ok(Parsed(n, rest)))
    ensures !IntOk(n) ==>
              var r := ParseNumber(IntText(n) + rest);
              r.Some? && r.value.Ok? && r.value.value.rest != "" && Digit(r.value.value.rest[0])
  {
    hide ParseDigits;
    DigitsOf(n, rest);
    Pow10Of15();
    DigitsBack(if n < 0 then -n else n, n < 0, rest);
  }

  lemma FollowsNumber(rest: string)
    requires Follows(rest)
    ensures Boundary(rest, Digit) && (rest == "" || rest[0] != '.')
  {
  }

  lemma Taken(digits: string, rest: string, d: nat)
    requires d <= |digits| && All(digits, Digit)
    ensures d == |digits| ==> (digits + rest)[..d] == digits && (digits + rest)[d..] == rest
    ensures d < |digits| ==> (digits + rest)[d..] != "" && Digit((digits + rest)[d..][0])
  {
    if d < |digits| {
      assert (digits + rest)[d..][0] == digits[d] && digits[d] in digits;
    }
  }

  lemma ValueBack(v: Bare, rest: string, base64: Base64)
    requires ValueOk(v) && !v.Bool? && Follows(rest)
    ensures ValueText(v) != "" && ValueText(v)[0] == '=' && ParseBare(ValueText(v)[1..] + rest, base64) == Ok(Parsed(v, rest))
  {
    match v
    case Str(s) =>
      StringBack(s, rest);
      hide EscapeRest;
      hide ParseString;
      assert ValueText(v)[1..] == "\"" + EscapeRest(s);
      BareString("\"" + EscapeRest(s) + rest, base64);
    case Int(n) =>
      hide IntText;
      assert ValueText(v)[1..] == IntText(n);
      IntStart(n, rest);
      NumberBack(n, rest);
      BareNumber(IntText(n) + rest, base64);
  }

  lemma BareString(s: string, base64: Base64)
    requires Starts(s, '\"') && ParseString(s).Ok?
    ensures ParseBare(s, base64) == Ok(Parsed(Str(ParseString(s).value.value), ParseString(s).value.rest))
  {
    hide ParseString;
  }

  lemma BareNumber(s: string, base64: Base64)
    requires s != "" && (Digit(s[0]) || s[0] == '-') && ParseNumber(s).Some? && ParseNumber(s).value.Ok?
    ensures ParseBare(s, base64) == Ok(Parsed(Int(ParseNumber(s).value.value.value), ParseNumber(s).value.value.rest))
  {
    hide ParseNumber;
  }

  lemma IntStart(n: int, rest: string)
    ensures var s := IntText(n) + rest;
            s != "" && (Digit(s[0]) || s[0] == '-')
  {
    var digits := NatText(if n < 0 then -n else n);
    assert digits[0] in digits;
    assert (IntText(n) + rest)[0] == IntText(n)[0];
  }

  lemma ParamBack(p: Param, rest: string, base64: Base64)
    requires ParamOk(p) && Follows(rest)
    ensures ParseParam(p.key + ValueText(p.value) + rest, base64) == Ok(Parsed(p, rest))
  {
    if p.value.Bool? {
      assert p.key + ValueText(p.value) == p.key;
      hide ParseKey;
      KeyBack(p.key, rest);
    } else {
      ValueBack(p.value, rest, base64);
      hide ValueText;
      ValuedBack(p.key, ValueText(p.value), p.value, rest, base64);
    }
  }

  lemma ValuedBack(k: string, text: string, v: Bare, rest: string, base64: Base64)
    requires KeyOk(k) && text != "" && text[0] == '=' && ParseBare(text[1..] + rest, base64) == Ok(Parsed(v, rest))
    ensures ParseParam(k + text + rest, base64) == Ok(Parsed(Param(k, v), rest))
  {
    hide ParseKey;
    hide ParseBare;
    hide KeyOk;
    Regroup(k, text, rest);
    assert (text + rest)[0] == '=' && (text + rest)[1..] == text[1..] + rest;
    KeyBack(k, text + rest);
  }

  lemma ParamsHead(ps: seq<Param>, rest: string)
    requires Ends(rest)
    ensures Follows(ParamsText(ps) + rest)
  {
    if ps == [] {
      assert ParamsText(ps) + rest == rest;
    } else {
      assert (ParamsText(ps) + rest)[0] == ';';
    }
  }

  lemma {:induction false} ParamsBack(ps: seq<Param>, rest: string, base64: Base64)
    requires (forall p | p in ps :: ParamOk(p)) && Ends(rest)
    ensures ParseParams(ParamsText(ps) + rest, base64) == Ok(Parsed(ps, rest))
  {
    hide ParseParam;
    hide ParamOk;
    hide ValueText;
    hide Ends;
    hide Follows;
    hide ParseParams;
    hide ParamsText;
    if ps == [] {
      NoParamsBack(rest, base64);
    } else {
      assert ps[0] in ps && forall p | p in ps[1..] :: p in ps;
      var body, tail := ps[0].key + ValueText(ps[0].value), ParamsText(ps[1..]) + rest;
      ParamsHead(ps[1..], rest);
      ParamBack(ps[0], tail, base64);
      ParamsBack(ps[1..], rest, base64);
      ParamsSplit(ps, rest);
      ParamsStep(body + tail, base64);
      assert ps == [ps[0]] + ps[1..];
    }
  }

  lemma NoParamsBack(rest: string, base64: Base64)
    requires Ends(rest)
    ensures ParseParams(ParamsText([]) + rest, base64) == Ok(Parsed([], rest))
  {
    assert ParamsText([]) + rest == rest;
  }

  lemma ParamsStep(s: string, base64: Base64)
    ensures ParseParams(";" + s, base64)
            == match ParseParam(s, base64)
               case Err(f) => Err(f)
               case Ok(Parsed(p, rest)) =>
                 match ParseParams(rest, base64)
                 case Err(f) => Err(f)
                 case Ok(Parsed(ps, end)) => Ok(Parsed([p] + ps, end))
  {
    hide ParseParam;
    assert (";" + s)[0] == ';' && (";" + s)[1..] == s;
  }

  lemma ParamsSplit(ps: seq<Param>, rest: string)
    requires ps != []
    ensures ParamsText(ps) + rest == ";" + (ps[0].key + ValueText(ps[0].value) + (ParamsText(ps[1..]) + rest))
  {
    hide ValueText;
    var body := ps[0].key + ValueText(ps[0].value);
    Regroup(";" + body, ParamsText(ps[1..]), rest);
    Regroup(";", body, ParamsText(ps[1..]) + rest);
  }
}
