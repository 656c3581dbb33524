/** The verifier's side of a signature base (src/httpMessageSignatures.ts): it rebuilds the base from the
    `Signature-Input` value it parsed, and a base that is equal to a signer's forces everything to be the signer's. */
module SignatureVerifier {
  import opened Prelude
  import opened Text
  import opened StructuredFields
  import opened SignatureInput

  /** The texts the base64 check accepts have no line break. */
  ghost predicate PlainBase64(base64: Base64) { forall t: string | base64(t) :: NoBreak(t) }

  // ---------------------------------------------------------------------------
  // What the parser takes has no line break
  // ---------------------------------------------------------------------------

  lemma Joined(s: string, n: nat)
    requires n <= |s| && NoBreak(s[..n]) && NoBreak(s[n..])
    ensures NoBreak(s)
  {
    assert s == s[..n] + s[n..];
  }

  lemma {:induction false} SpacesPlain(s: string)
    requires NoBreak(SkipSpaces(s))
    ensures NoBreak(s)
  {
    if s != "" && s[0] == ' ' {
      SpacesPlain(s[1..]);
      Joined(s, 1);
    }
  }

  lemma KeyPlain(s: string)
    requires ParseKey(s).Ok?
    ensures KeyOk(ParseKey(s).value.value) && (NoBreak(ParseKey(s).value.rest) ==> NoBreak(s))
  {
    var n := 1 + Run(s[1..], KeyChar);
    forall c | c in s[..n]
      ensures KeyChar(c)
    {
      var i :| 0 <= i < n && s[i] == c;
      if i > 0 {
        assert s[1..][..n - 1][i - 1] == c;
      }
    }
    assert NoBreak(s[..n]);
    if NoBreak(s[n..]) {
      Joined(s, n);
    }
  }

  lemma {:induction false} BodyPlain(s: string)
    requires ParseStringBody(s).Ok?
    ensures Printable(ParseStringBody(s).value.value) && (NoBreak(ParseStringBody(s).value.rest) ==> NoBreak(s))
    decreases |s|
  {
    match StringUnit(s)
    case Bad => assert false;
    case Close =>
      if NoBreak(s[1..]) {
        Joined(s, 1);
      }
    case One(c, width) =>
      BodyPlain(s[width..]);
      var body := ParseStringBody(s[width..]).value;
      assert ParseStringBody(s).value == Parsed([c] + body.value, body.rest);
      if NoBreak(s[width..]) {
        Joined(s, width);
      }
  }

  lemma StringPlain(s: string)
    requires ParseString(s).Ok?
    ensures Printable(ParseString(s).value.value) && (NoBreak(ParseString(s).value.rest) ==> NoBreak(s))
  {
    BodyPlain(s[1..]);
    if NoBreak(s[1..]) {
      Joined(s, 1);
    }
  }

  lemma DigitsPlain(t: string, negative: bool)
    requires ParseDigits(t, negative).Some? && ParseDigits(t, negative).value.Ok?
    ensures NoBreak(ParseDigits(t, negative).value.value.rest) ==> NoBreak(t)
  {
    hide NatValue;
    var n := Run(t, Digit);
    var d := if n > 15 then 15 else n;
    forall c | c in t[..d]
      ensures Digit(c)
    {
      assert c in t[..n];
    }
    if NoBreak(t[d..]) {
      Joined(t, d);
    }
  }

  lemma NumberPlain(s: string)
    requires ParseNumber(s).Some? && ParseNumber(s).value.Ok?
    ensures NoBreak(ParseNumber(s).value.value.rest) ==> NoBreak(s)
  {
    hide ParseDigits;
    if Starts(s, '-') {
      DigitsPlain(s[1..], true);
      if NoBreak(s[1..]) {
        Joined(s, 1);
      }
    } else {
      DigitsPlain(s, false);
    }
  }

  lemma TokenPlain(s: string)
    requires s != "" && TokenStart(s[0])
    ensures NoBreak(s[1 + Run(s[1..], TokenChar)..]) ==> NoBreak(s)
  {
    var n := 1 + Run(s[1..], TokenChar);
    forall c | c in s[..n]
      ensures TokenChar(c)
    {
      var i :| 0 <= i < n && s[i] == c;
      if i > 0 {
        assert s[1..][..n - 1][i - 1] == c;
      }
    }
    TokenCharsPlain();
    if NoBreak(s[n..]) {
      Joined(s, n);
    }
  }

  lemma TokenCharsPlain()
    ensures !TokenChar('\n') && !TokenChar('\r')
  {
  }

  lemma BinaryPlain(s: string, base64: Base64)
    requires PlainBase64(base64) && Starts(s, ':') && ParseBare(s, base64).Ok?
    ensures NoBreak(ParseBare(s, base64).value.rest) ==> NoBreak(s)
  {
    var t := s[1..];
    var end := Find(t, ':');
    FindFinds(t, ':');
    assert base64(t[..end]);
    if NoBreak(t[end + 1..]) {
      assert NoBreak(t[..end + 1]) by { assert t[..end + 1] == t[..end] + [':']; }
      Joined(t, end + 1);
      Joined(s, 1);
    }
  }

  lemma {:induction false} FindFinds(t: string, c: char)
    ensures Find(t, c) < |t| ==> t[Find(t, c)] == c
  {
    if t != "" && t[0] != c {
      FindFinds(t[1..], c);
    }
  }

  lemma BarePlain(s: string, base64: Base64)
    requires PlainBase64(base64) && ParseBare(s, base64).Ok?
    ensures NoBreak(ParseBare(s, base64).value.rest) ==> NoBreak(s)
  {
    hide ParseString;
    hide ParseNumber;
    hide PlainBase64;
    hide TokenChar;
    hide NoBreak;
    if Starts(s, '\"') {
      StringPlain(s);
    } else if Starts(s, ':') {
      BinaryPlain(s, base64);
    } else if Starts(s, '?') {
      TwoPlain(s);
    } else if ParseNumber(s).Some? {
      NumberPlain(s);
    } else {
      TokenPlain(s);
    }
  }

  lemma TwoPlain(s: string)
    requires |s| >= 2 && s[0] == '?' && (s[1] == '0' || s[1] == '1')
    ensures NoBreak(s[2..]) ==> NoBreak(s)
  {
    if NoBreak(s[2..]) {
      Joined(s, 2);
    }
  }

  lemma ParamPlain(s: string, base64: Base64)
    requires PlainBase64(base64) && ParseParam(s, base64).Ok?
    ensures KeyOk(ParseParam(s, base64).value.value.key)
    ensures NoBreak(ParseParam(s, base64).value.rest) ==> NoBreak(s)
  {
    hide ParseBare;
    hide ParseKey;
    hide SkipSpaces;
    hide PlainBase64;
    var k := ParseKey(SkipSpaces(s)).value;
    KeyPlain(SkipSpaces(s));
    if NoBreak(ParseParam(s, base64).value.rest) {
      if Starts(k.rest, '=') {
        BarePlain(k.rest[1..], base64);
        Joined(k.rest, 1);
      }
      SpacesPlain(s);
    }
  }

  lemma {:induction false} ParamsPlain(s: string, base64: Base64)
    requires PlainBase64(base64) && ParseParams(s, base64).Ok?
    ensures forall p | p in ParseParams(s, base64).value.value :: KeyOk(p.key)
    ensures NoBreak(ParseParams(s, base64).value.rest) ==> NoBreak(s)
    decreases |s|
  {
    hide ParseParam;
    hide KeyOk;
    hide PlainBase64;
    if Starts(s, ';') {
      var first := ParseParam(s[1..], base64).value;
      ParamPlain(s[1..], base64);
      ParamsPlain(first.rest, base64);
      assert ParseParams(s, base64).value.value == [first.value] + ParseParams(first.rest, base64).value.value;
      if NoBreak(s[1..]) {
        Joined(s, 1);
      }
    }
  }

  /** What serializes is a well-formed component, serialized as its identifier. */
  lemma {:induction false} SerializedParams(ps: seq<Param>)
    requires SerializeParams(ps).Ok? && forall p | p in ps :: KeyOk(p.key)
    ensures forall p | p in ps :: ComponentParam(p)
  {
    hide KeyOk;
    if ps != [] {
      assert forall p | p in ps[1..] :: p in ps;
      SerializedParams(ps[1..]);
      assert ps[0] in ps && ComponentParam(ps[0]);
      assert ps == [ps[0]] + ps[1..];
    }
  }

  lemma SerializedComponent(name: string, ps: seq<Param>)
    requires SerializeComponent(name, ps).Ok? && forall p | p in ps :: KeyOk(p.key)
    ensures ComponentOk(Component(name, ps)) && SerializeComponent(name, ps).value == Id(Component(name, ps))
  {
    hide KeyOk;
    SerializedParams(ps);
    SerializesParams(ps);
    hide ParamsText;
  }

  ghost predicate WellFormed(ids: seq<string>, cs: seq<Component>) {
    ids == Ids(cs) && forall c | c in cs :: ComponentOk(c)
  }

  /** Parsed components are the identifiers of well-formed components. */
  lemma {:induction false} ComponentsPlain(s: string, count: nat, base64: Base64) returns (cs: seq<Component>)
    requires PlainBase64(base64) && ParseComponents(s, count, base64).Ok?
    ensures WellFormed(ParseComponents(s, count, base64).value.value, cs)
    ensures NoBreak(ParseComponents(s, count, base64).value.rest) ==> NoBreak(s)
    decreases |s|
  {
    hide ParseString;
    hide ParseParams;
    hide SerializeComponent;
    hide SkipSpaces;
    hide PlainBase64;
    hide ComponentOk;
    hide Id;
    hide KeyOk;
    if Starts(s, ')') {
      cs := [];
      if NoBreak(s[1..]) {
        Joined(s, 1);
      }
    } else {
      var name := ParseString(s).value;
      var ps := ParseParams(name.rest, base64).value;
      StringPlain(s);
      ParamsPlain(name.rest, base64);
      SerializedComponent(name.value, ps.value);
      var next := SkipSpaces(ps.rest);
      var others := ComponentsPlain(next, count + 1, base64);
      var c := Component(name.value, ps.value);
      cs := [c] + others;
      assert Ids(cs) == [Id(c)] + Ids(others);
      if NoBreak(ParseComponents(s, count, base64).value.rest) {
        SpacesPlain(ps.rest);
      }
    }
  }

  /** A `Signature-Input` value that parses has no line break, and names well-formed components. */
  lemma ParsedPlain(raw: string, base64: Base64) returns (cs: seq<Component>)
    requires PlainBase64(base64) && ParseInput(raw, base64).Ok?
    ensures NoBreak(raw) && WellFormed(ParseInput(raw, base64).value.0, cs)
  {
    hide ParseComponents;
    hide ParseParams;
    hide Interpret;
    hide SkipSpaces;
    hide PlainBase64;
    hide WellFormed;
    hide KeyOk;
    var list := SkipSpaces(raw[1..]);
    cs := ComponentsPlain(list, 0, base64);
    var rest := ParseComponents(list, 0, base64).value.rest;
    ParamsPlain(rest, base64);
    SpacesPlain(raw[1..]);
    Joined(raw, 1);
  }

  // ---------------------------------------------------------------------------
  // The two sides meet
  // ---------------------------------------------------------------------------

  /** Two verifiers that accept one signature read the same `Signature-Input` value, and the same values. */
  lemma VerifiedBaseUnambiguous(raw: string, r: Resolver, raw': string, q: Resolver, base64: Base64)
    requires PlainBase64(base64) && ParseInput(raw, base64).Ok? && ParseInput(raw', base64).Ok?
    requires Base(ParseInput(raw, base64).value.0, raw, r).Ok?
    requires Base(ParseInput(raw, base64).value.0, raw, r) == Base(ParseInput(raw', base64).value.0, raw', q)
    ensures raw == raw' && forall id | id in ParseInput(raw, base64).value.0 :: r(id) == q(id)
  {
    hide ParseInput;
    hide PlainBase64;
    hide Base;
    hide NoBreak;
    hide ComponentOk;
    hide Id;
    var cs := ParsedPlain(raw, base64);
    var ds := ParsedPlain(raw', base64);
    BaseUnambiguous(cs, raw, r, ds, raw', q);
  }

  /** A base a verifier rebuilds from what it parsed is one a signer built only if the received value is the one the
      signer wrote, and components, parameters and every component value are the signer's. */
  lemma VerifierReadsSigner(cs: seq<Component>, p: SignatureParams, r: Resolver, raw: string, q: Resolver, base64: Base64)
    requires (forall c | c in cs :: ComponentOk(c)) && PrintableParams(p)
    requires PlainBase64(base64) && ParseInput(raw, base64).Ok?
    requires Base(Ids(cs), Serialize(Ids(cs), p).value, r).Ok?
    requires Base(Ids(cs), Serialize(Ids(cs), p).value, r) == Base(ParseInput(raw, base64).value.0, raw, q)
    ensures raw == Serialize(Ids(cs), p).value && ParseInput(raw, base64) == Ok((Ids(cs), p))
    ensures forall c | c in cs :: r(Id(c)) == q(Id(c))
  {
    hide ParseInput;
    hide PlainBase64;
    hide Base;
    hide NoBreak;
    hide ComponentOk;
    hide Id;
    hide ParamList;
    hide ParamsText;
    var ds := ParsedPlain(raw, base64);
    SerializedOneLine(cs, p);
    BaseUnambiguous(cs, Serialize(Ids(cs), p).value, r, ds, raw, q);
    ParsesBackExactly(cs, p, base64);
  }
}
