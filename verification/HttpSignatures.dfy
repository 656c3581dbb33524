/** The parser object and the loops of src/httpMessageSignatures.ts, proved against `StructuredFields` and
    `SignatureInput`. */
module HttpSignatures {
  import opened Prelude
  import opened Text
  import opened StructuredFields
  import opened SignatureInput

  /** A parse that agrees with its specification and leaves the parser at the rest. */
  predicate Agrees<T(==)>(r: Result<T, Fault>, spec: Result<Parsed<T>, Fault>, rest: string) {
    match spec
    case Err(f) => r == Err(f)
    case Ok(Parsed(x, end)) => r == Ok(x) && rest == end
  }

  class SfParser {
    const s: string
    const base64: Base64
    var i: nat

    constructor (s: string, base64: Base64)
      ensures this.s == s && this.base64 == base64 && Valid() && Rest() == s
    {
      this.s, this.base64 := s, base64;
      i := 0;
    }

    ghost predicate Valid() reads this { i <= |s| }

    function Rest(): string
      requires i <= |s|
      reads this
    {
      s[i..]
    }

    function Eof(): bool
      requires i <= |s|
      reads this
      ensures Eof() <==> Rest() == ""
    {
      i >= |s|
    }

    function At(c: char): bool
      requires i <= |s|
      reads this
      ensures At(c) <==> Starts(Rest(), c)
    {
      i < |s| && s[i] == c
    }

    method SkipSp()
      requires Valid()
      modifies this
      ensures Valid() && Rest() == SkipSpaces(old(Rest()))
    {
      ghost var start := Rest();
      while At(' ')
        invariant Valid() && SkipSpaces(Rest()) == SkipSpaces(start)
        decreases |s| - i
      {
        assert Rest()[1..] == s[i + 1..];
        i := i + 1;
      }
    }

    method Expect(c: char) returns (r: Result<(), Fault>)
      requires Valid()
      modifies this
      ensures Valid()
      ensures if Starts(old(Rest()), c) then r == Ok(()) && Rest() == old(Rest())[1..] else r == Err(MalformedField)
    {
      if !At(c) {
        return Err(MalformedField);
      }
      assert Rest()[1..] == s[i + 1..];
      i := i + 1;
      return Ok(());
    }

    /** Takes a prefix of what is left. */
    method Take(n: nat) returns (text: string)
      requires Valid() && n <= |Rest()|
      modifies this
      ensures Valid() && text == old(Rest())[..n] && Rest() == old(Rest())[n..]
    {
      text := s[i..i + n];
      assert text == s[i..][..n];
      i := i + n;
    }

    method Key() returns (r: Result<string, Fault>)
      requires Valid()
      modifies this
      ensures Valid() && Agrees(r, ParseKey(old(Rest())), Rest())
    {
      if Eof() || !KeyStart(s[i]) {
        return Err(MalformedField);
      }
      assert Rest()[0] == s[i];
      var k := Take(1 + Run(Rest()[1..], KeyChar));
      return Ok(k);
    }

    method String() returns (r: Result<string, Fault>)
      requires Valid()
      modifies this
      ensures Valid() && Agrees(r, ParseString(old(Rest())), Rest())
    {
      hide ParseStringBody;
      var quote := Expect('\"');
      if quote.Err? {
        return Err(quote.error);
      }
      r := StringBody();
    }

    /** One turn of the loop of `string`. */
    method NextUnit() returns (u: Unit)
      requires Valid()
      modifies this
      ensures Valid() && u == StringUnit(old(Rest()))
      ensures u.One? ==> Rest() == old(Rest())[u.width..]
      ensures u.Close? ==> Rest() == old(Rest())[1..]
    {
      ghost var here := Rest();
      if i >= |s| {
        return Bad;
      }
      var c := s[i];
      assert c == here[0] && s[i + 1..] == here[1..];
      i := i + 1;
      if c == '\\' {
        if i >= |s| {
          return Bad;
        }
        var n := s[i];
        assert n == here[1] && s[i + 1..] == here[2..];
        i := i + 1;
        return if n != '\"' && n != '\\' then Bad else One(n, 2);
      }
      return if c == '\"' then Close else if !(' ' <= c <= '~') then Bad else One(c, 1);
    }

    /** The loop of `string`, after the opening quote. */
    method StringBody() returns (r: Result<string, Fault>)
      requires Valid()
      modifies this
      ensures Valid() && Agrees(r, ParseStringBody(old(Rest())), Rest())
    {
      hide StringUnit;
      ghost var start := Rest();
      var out := "";
      PrefixedNone(ParseStringBody(Rest()));
      while true
        invariant Valid() && ParseStringBody(start) == Prefixed(out, ParseStringBody(Rest()))
        decreases |Rest()|
      {
        var unit := NextUnit();
        if unit.Bad? {
          return Err(MalformedField);
        }
        if unit.Close? {
          assert out + "" == out;
          return Ok(out);
        }
        PrefixedStep(out, unit.c, ParseStringBody(Rest()));
        out := out + [unit.c];
      }
    }

    method BareItem() returns (r: Result<Bare, Fault>)
      requires Valid()
      modifies this
      ensures Valid() && Agrees(r, ParseBare(old(Rest()), base64), Rest())
    {
      hide ParseDigits;
      hide ParseStringBody;
      ghost var start := Rest();
      if At('\"') {
        var text := String();
        return if text.Err? then Err(text.error) else Ok(Str(text.value));
      }
      if At(':') {
        var rest := Rest()[1..];
        var end := Find(rest, ':');
        if end == |rest| || !base64(rest[..end]) {
          return Err(MalformedField);
        }
        i := i + 1 + end + 1;
        assert s[i..] == rest[end + 1..];
        return Ok(Binary(rest[..end]));
      }
      if At('?') {
        if i + 1 >= |s| || (s[i + 1] != '0' && s[i + 1] != '1') {
          return Err(MalformedField);
        }
        var v := s[i + 1] == '1';
        assert start[1] == s[i + 1] && s[i + 2..] == start[2..];
        i := i + 2;
        return Ok(Bool(v));
      }
      var num := ParseNumber(Rest());
      if num.Some? {
        if num.value.Err? {
          return Err(num.value.error);
        }
        NumberIsSuffix(start);
        i := |s| - |num.value.value.rest|;
        assert s[i..] == num.value.value.rest;
        return Ok(Int(num.value.value.value));
      }
      if Eof() || !TokenStart(s[i]) {
        return Err(MalformedField);
      }
      assert Rest()[0] == s[i];
      var t := Take(1 + Run(Rest()[1..], TokenChar));
      return Ok(Token(t));
    }

    /** One parameter, after its semicolon. */
    method OneParam() returns (r: Result<Param, Fault>)
      requires Valid()
      modifies this
      ensures Valid() && Agrees(r, ParseParam(old(Rest()), base64), Rest())
    {
      hide ParseKey;
      hide ParseBare;
      hide SkipSpaces;
      SkipSp();
      var k := Key();
      if k.Err? {
        return Err(k.error);
      }
      if !At('=') {
        return Ok(Param(k.value, Bool(true)));
      }
      assert s[i + 1..] == Rest()[1..];
      i := i + 1;
      var bare := BareItem();
      return if bare.Err? then Err(bare.error) else Ok(Param(k.value, bare.value));
    }

    method Params() returns (r: Result<seq<Param>, Fault>)
      requires Valid()
      modifies this
      ensures Valid() && Agrees(r, ParseParams(old(Rest()), base64), Rest())
    {
      hide ParseParam;
      ghost var start := Rest();
      var out: seq<Param> := [];
      WithListNone(ParseParams(start, base64));
      while At(';')
        invariant Valid() && ParseParams(start, base64) == WithList(out, ParseParams(Rest(), base64))
        decreases |Rest()|
      {
        assert s[i + 1..] == Rest()[1..];
        i := i + 1;
        var p := OneParam();
        if p.Err? {
          return Err(p.error);
        }
        WithListStep(out, p.value, ParseParams(Rest(), base64));
        out := out + [p.value];
      }
      assert out + [] == out;
      return Ok(out);
    }
  }

  function Prefixed(out: string, r: Result<Parsed<string>, Fault>): Result<Parsed<string>, Fault> {
    match r
    case Err(f) => Err(f)
    case Ok(Parsed(t, rest)) => Ok(Parsed(out + t, rest))
  }

  lemma PrefixedNone(r: Result<Parsed<string>, Fault>)
    ensures Prefixed("", r) == r
  {
    if r.Ok? {
      assert "" + r.value.value == r.value.value;
    }
  }

  lemma PrefixedStep(out: string, c: char, r: Result<Parsed<string>, Fault>)
    ensures Prefixed(out, Prefixed([c], r)) == Prefixed(out + [c], r)
  {
    if r.Ok? {
      Regroup(out, [c], r.value.value);
    }
  }

  function WithList<T>(out: seq<T>, r: Result<Parsed<seq<T>>, Fault>): Result<Parsed<seq<T>>, Fault> {
    match r
    case Err(f) => Err(f)
    case Ok(Parsed(xs, rest)) => Ok(Parsed(out + xs, rest))
  }

  lemma WithListNone<T>(r: Result<Parsed<seq<T>>, Fault>)
    ensures WithList([], r) == r
  {
    if r.Ok? {
      assert [] + r.value.value == r.value.value;
    }
  }

  lemma WithListStep<T>(out: seq<T>, x: T, r: Result<Parsed<seq<T>>, Fault>)
    ensures WithList(out, WithList([x], r)) == WithList(out + [x], r)
  {
    if r.Ok? {
      assert out + ([x] + r.value.value) == out + [x] + r.value.value;
    }
  }

  lemma NumberIsSuffix(s: string)
    ensures var r := ParseNumber(s);
            r.Some? && r.value.Ok? ==> |r.value.value.rest| <= |s| && s[|s| - |r.value.value.rest|..] == r.value.value.rest
  {
    var t := if Starts(s, '-') then s[1..] else s;
    var n := Run(t, Digit);
    var d := if n > 15 then 15 else n;
    assert t[d..] == s[|s| - |t[d..]|..];
  }

  // ---------------------------------------------------------------------------
  // Signature input
  // ---------------------------------------------------------------------------

  lemma InputParts(raw: string, base64: Base64)
    ensures !Starts(raw, '(') ==> ParseInput(raw, base64) == Err(MalformedField)
    ensures Starts(raw, '(') ==>
              var ids := ParseComponents(SkipSpaces(raw[1..]), 0, base64);
              && (ids.Err? ==> ParseInput(raw, base64) == Err(ids.error))
              && (ids.Ok? ==>
                    var params := ParseTrailer(ids.value.rest, base64);
                    ParseInput(raw, base64) == if params.Ok? then Ok((ids.value.value, params.value)) else Err(params.error))
  {
    hide ParseComponents;
    hide ParseTrailer;
    hide SkipSpaces;
  }

  /** `parseSignatureInputMember`. */
  method ParseSignatureInputMember(raw: string, base64: Base64) returns (r: Result<(seq<string>, SignatureParams), Fault>)
    ensures r == ParseInput(raw, base64)
  {
    hide ParseComponents;
    hide ParseTrailer;
    hide SkipSpaces;
    hide ParseInput;
    InputParts(raw, base64);
    var p := new SfParser(raw, base64);
    var open := p.Expect('(');
    if open.Err? {
      return Err(open.error);
    }
    p.SkipSp();
    var ids := InnerList(p);
    if ids.Err? {
      return Err(ids.error);
    }
    var params := Trailer(p);
    if params.Err? {
      return Err(params.error);
    }
    return Ok((ids.value, params.value));
  }

  /** The parameters, which must reach the end. */
  method Trailer(p: SfParser) returns (r: Result<SignatureParams, Fault>)
    requires p.Valid()
    modifies p
    ensures r == ParseTrailer(old(p.Rest()), p.base64)
  {
    hide ParseParams;
    hide Interpret;
    var ps := p.Params();
    if ps.Err? {
      return Err(ps.error);
    }
    var params := Collect(ps.value);
    if params.Err? {
      return Err(params.error);
    }
    if !p.Eof() {
      return Err(MalformedField);
    }
    return Ok(params.value);
  }

  /** The loop over components, up to the closing parenthesis. */
  method InnerList(p: SfParser) returns (r: Result<seq<string>, Fault>)
    requires p.Valid()
    modifies p
    ensures p.Valid() && Agrees(r, ParseComponents(old(p.Rest()), 0, p.base64), p.Rest())
  {
    hide ParseString;
    hide ParseParams;
    hide SerializeComponent;
    hide SkipSpaces;
    ghost var start := p.Rest();
    var components: seq<string> := [];
    WithListNone(ParseComponents(start, 0, p.base64));
    while !p.At(')')
      invariant p.Valid() && |components| <= MAX_COMPONENTS
      invariant ParseComponents(start, 0, p.base64) == WithList(components, ParseComponents(p.Rest(), |components|, p.base64))
      decreases |p.Rest()|
    {
      ghost var here := p.Rest();
      var name := p.String();
      if name.Err? {
        return Err(name.error);
      }
      var ps := p.Params();
      if ps.Err? {
        return Err(ps.error);
      }
      var id := SerializeOne(name.value, ps.value);
      if id.Err? {
        return Err(id.error);
      }
      if |components| + 1 > MAX_COMPONENTS {
        return Err(TooManyComponents);
      }
      if !p.At(' ') && !p.At(')') {
        return Err(MalformedField);
      }
      p.SkipSp();
      WithListStep(components, id.value, ParseComponents(p.Rest(), |components| + 1, p.base64));
      components := components + [id.value];
    }
    assert components + [] == components;
    var close := p.Expect(')');
    return Ok(components);
  }

  /** `serializeComponent`. */
  method SerializeOne(name: string, ps: seq<Param>) returns (r: Result<string, Fault>)
    ensures r == SerializeComponent(name, ps)
  {
    var quoted := Quote(name);
    if quoted.Err? {
      return Err(quoted.error);
    }
    hide Quote;
    var out := quoted.value;
    assert ps[0..] == ps;
    for n := 0 to |ps|
      invariant SerializeComponent(name, ps)
                == match SerializeParams(ps[n..]) { case Err(f) => Err(f) case Ok(rest) => Ok(out + rest) }
    {
      var v := ps[n].value;
      assert ps[n..][0] == ps[n] && ps[n..][1..] == ps[n + 1..];
      if v != Bool(true) && !v.Str? {
        return Err(UnsupportedParameter);
      }
      if v.Str? && !Printable(v.s) {
        return Err(NonAsciiValue);
      }
      if SerializeParams(ps[n + 1..]).Ok? {
        Regroup(out, ParamText(ps[n]), SerializeParams(ps[n + 1..]).value);
      }
      out := out + ParamText(ps[n]);
    }
    assert ps[|ps|..] == [] && out + "" == out;
    return Ok(out);
  }

  /** The loop over the parsed parameters. */
  method Collect(ps: seq<Param>) returns (r: Result<SignatureParams, Fault>)
    ensures r == Interpret(ps, {}, NO_PARAMS)
  {
    var params := NO_PARAMS;
    var seen: set<string> := {};
    assert ps[0..] == ps;
    for n := 0 to |ps|
      invariant Interpret(ps, {}, NO_PARAMS) == Interpret(ps[n..], seen, params)
    {
      var p := ps[n];
      assert ps[n..][0] == p && ps[n..][1..] == ps[n + 1..];
      if p.key in seen {
        return Err(DuplicateParameter);
      }
      if !WellTyped(p) {
        return Err(MalformedParameter);
      }
      seen := seen + {p.key};
      params := Assign(params, p);
    }
    return Ok(params);
  }

  /** `serializeSignatureParams`. */
  method SerializeSignatureParams(ids: seq<string>, p: SignatureParams) returns (r: Result<string, Fault>)
    ensures r == Serialize(ids, p)
  {
    hide ParamsText;
    hide Printable;
    var inner := "(" + (Join(ids, " ") + ")");
    var out := AppendInt(inner, "created", p.created);
    var keyid := AppendStr(out, "keyid", p.keyid);
    if keyid.Err? {
      return keyid;
    }
    var alg := AppendStr(keyid.value, "alg", p.alg);
    if alg.Err? {
      return alg;
    }
    var expires := AppendInt(alg.value, "expires", p.expires);
    var nonce := AppendStr(expires, "nonce", p.nonce);
    if nonce.Err? {
      return nonce;
    }
    r := AppendStr(nonce.value, "tag", p.tag);
    if r.Ok? {
      SixParts(inner, p);
      assert inner + ParamsText(ParamList(p)) == "(" + (Join(ids, " ") + (")" + ParamsText(ParamList(p)))) by {
        Regroup("(", Join(ids, " ") + ")", ParamsText(ParamList(p)));
        Regroup(Join(ids, " "), ")", ParamsText(ParamList(p)));
      }
    }
  }

  method AppendInt(before: string, key: string, n: Option<int>) returns (out: string)
    ensures out == before + ParamsText(OptionalInt(key, n))
  {
    out := before;
    if n.Some? {
      out := out + ParamText(Param(key, Int(n.value)));
    }
    PrintedAlone(if n.Some? then Param(key, Int(n.value)) else Param(key, Bool(true)), before);
  }

  method AppendStr(before: string, key: string, s: Option<string>) returns (r: Result<string, Fault>)
    ensures r == if PrintableOption(s) then Ok(before + ParamsText(OptionalStr(key, s))) else Err(NonAsciiValue)
  {
    if s.Some? && !Printable(s.value) {
      return Err(NonAsciiValue);
    }
    PrintedAlone(if s.Some? then Param(key, Str(s.value)) else Param(key, Bool(true)), before);
    return Ok(if s.Some? then before + ParamText(Param(key, Str(s.value))) else before);
  }

  lemma PrintedAlone(p: Param, before: string)
    ensures ParamsText([p]) == ParamText(p) && before + ParamsText([]) == before
  {
    assert [p][1..] == [] && ParamsText([]) == "" && ParamText(p) + "" == ParamText(p);
  }

  lemma {:induction false} TextOfBoth(before: string, ps: seq<Param>, qs: seq<Param>)
    ensures before + ParamsText(ps) + ParamsText(qs) == before + ParamsText(ps + qs)
    decreases |ps|
  {
    hide ParamText;
    if ps == [] {
      assert ps + qs == qs && before + "" == before;
    } else {
      assert (ps + qs)[0] == ps[0] && (ps + qs)[1..] == ps[1..] + qs;
      TextOfBoth(before + ParamText(ps[0]), ps[1..], qs);
      Regroup(before, ParamText(ps[0]), ParamsText(ps[1..]));
      Regroup(before, ParamText(ps[0]), ParamsText(ps[1..] + qs));
    }
  }

  /** The six optional parts, appended one after the other. */
  lemma SixParts(inner: string, p: SignatureParams)
    ensures inner + ParamsText(OptionalInt("created", p.created)) + ParamsText(OptionalStr("keyid", p.keyid))
            + ParamsText(OptionalStr("alg", p.alg)) + ParamsText(OptionalInt("expires", p.expires))
            + ParamsText(OptionalStr("nonce", p.nonce)) + ParamsText(OptionalStr("tag", p.tag))
            == inner + ParamsText(ParamList(p))
  {
    hide ParamsText;
    hide OptionalInt;
    hide OptionalStr;
    var a, b, c := OptionalInt("created", p.created), OptionalStr("keyid", p.keyid), OptionalStr("alg", p.alg);
    var d, e, f := OptionalInt("expires", p.expires), OptionalStr("nonce", p.nonce), OptionalStr("tag", p.tag);
    TextOfBoth(inner, a, b);
    TextOfBoth(inner, a + b, c);
    TextOfBoth(inner, a + b + c, d);
    TextOfBoth(inner, a + b + c + d, e);
    TextOfBoth(inner, a + b + c + d + e, f);
    assert a + b + c + d + e + f == a + (b + (c + (d + (e + f))));
  }

  // ---------------------------------------------------------------------------
  // Signature base
  // ---------------------------------------------------------------------------

  /** `buildSignatureBase`. */
  method BuildSignatureBase(ids: seq<string>, signatureParams: string, resolve: Resolver) returns (r: Result<string, BaseFault>)
    ensures r == Base(ids, signatureParams, resolve)
  {
    hide NoBreak;
    var seen: set<string> := {};
    var out := "";
    assert ids[0..] == ids;
    WithFrontNone(Lines(ids, {}, resolve));
    for n := 0 to |ids|
      invariant Lines(ids, {}, resolve) == WithFront(out, Lines(ids[n..], seen, resolve))
    {
      var id := ids[n];
      assert ids[n..][0] == id && ids[n..][1..] == ids[n + 1..];
      if id in seen {
        return Err(DuplicateComponent);
      }
      var value := resolve(id);
      if value.None? {
        return Err(ComponentFailed);
      }
      if !NoBreak(value.value) {
        return Err(InvalidValue);
      }
      WithFrontStep(out, id + (": " + value.value), Lines(ids[n + 1..], seen + {id}, resolve));
      seen := seen + {id};
      out := out + (id + (": " + value.value) + "\n");
    }
    assert ids[|ids|..] == [] && out + "" == out;
    out := out + (PARAMS_LABEL + signatureParams);
    if !Ascii(out) {
      return Err(NonAsciiBase);
    }
    return Ok(out);
  }

  function WithFront(out: string, r: Result<string, BaseFault>): Result<string, BaseFault> {
    match r
    case Err(f) => Err(f)
    case Ok(t) => Ok(out + t)
  }

  lemma WithFrontNone(r: Result<string, BaseFault>)
    ensures WithFront("", r) == r
  {
    if r.Ok? {
      assert "" + r.value == r.value;
    }
  }

  lemma WithFrontStep(out: string, line: string, r: Result<string, BaseFault>)
    ensures r.Ok? ==> WithFront(out, Ok(line + ("\n" + r.value))) == WithFront(out + (line + "\n"), r)
  {
    if r.Ok? {
      Regroup(line, "\n", r.value);
      Regroup(out, line + "\n", r.value);
    }
  }
}
