/** `Signature-Input` members and signature bases as texts (sections 2.3 and 2.5 of RFC 9421): which members are
    accepted and as what, and what is printed and signed (src/httpMessageSignatures.ts). */
module SignatureGrammar {
  import opened Prelude
  import opened Text
  import opened StructuredFields
  import opened SignatureInput
  import opened SfGrammar
  import opened HttpSignatures

  // ---------------------------------------------------------------------------
  // The covered components
  // ---------------------------------------------------------------------------

  /** `u` lists the components, in quotes and with parameters, each followed by spaces or by the closing parenthesis. */
  ghost predicate StartsWithList(u: string, cs: seq<Component>, rest: string, base64: Base64)
    decreases |cs|
  {
    if cs == [] then u == ")" + rest
    else
      exists t, mid, k, next :: StartsWithComponent(u, cs[0], t, mid, k, next, base64) && StartsWithList(next, cs[1..], rest, base64)
  }

  /** `u` is a component, its name written as `t` and its parameters at the front of `mid`, then `k` spaces, then `next`. */
  ghost predicate StartsWithComponent(u: string, c: Component, t: string, mid: string, k: nat, next: string, base64: Base64) {
    && u == "\"" + t + mid && IsString(t, c.name)
    && StartsWithParams(mid, c.params, Spaces(k) + next, base64)
    && (k > 0 || (next != "" && next[0] == ')')) && (next == "" || next[0] != ' ')
  }

  predicate FlagOrText(p: Param) { p.value == Bool(true) || p.value.Str? }

  predicate AllFlagsOrTexts(cs: seq<Component>) { forall c | c in cs :: forall p | p in c.params :: FlagOrText(p) }

  lemma {:induction false} StringsPrintable(t: string, s: string)
    requires IsString(t, s)
    ensures Printable(s)
    decreases |t|
  {
    if s != "" {
      StringsPrintable(t[if s[0] == '\"' || s[0] == '\\' then 2 else 1..], s[1..]);
      assert s == [s[0]] + s[1..];
    }
  }

  predicate Written(p: Param) { KeyOk(p.key) && (p.value.Str? ==> Printable(p.value.s)) }

  lemma ParamWritten(u: string, p: Param, rest: string, base64: Base64)
    requires StartsWithParam(u, p, rest, base64)
    ensures Written(p)
  {
    var k: nat, tail: string :| u == Spaces(k) + p.key + tail && IsKey(p.key, tail)
      && if tail != "" && tail[0] == '=' then exists t :: tail == "=" + t + rest && Writes(t, p.value, rest, base64)
         else p.value == Bool(true) && tail == rest;
    KeyChars(p.key, tail);
    if p.value.Str? {
      var t :| tail == "=" + t + rest && Writes(t, p.value, rest, base64);
      StringsPrintable(t[1..], p.value.s);
    }
  }

  lemma {:induction false} ParamsWritten(u: string, ps: seq<Param>, rest: string, base64: Base64)
    requires StartsWithParams(u, ps, rest, base64)
    ensures forall p | p in ps :: Written(p)
    decreases |ps|
  {
    hide StartsWithParam;
    hide Written;
    if ps != [] {
      var mid :| StartsWithParam(u[1..], ps[0], mid, base64) && StartsWithParams(mid, ps[1..], rest, base64);
      ParamWritten(u[1..], ps[0], mid, base64);
      ParamsWritten(mid, ps[1..], rest, base64);
      assert ps == [ps[0]] + ps[1..];
    }
  }

  /** A component serializes exactly when its parameters are flags and texts. */
  lemma {:induction false} SerializesExactly(name: string, ps: seq<Param>)
    requires Printable(name) && forall p | p in ps :: Written(p)
    ensures SerializeComponent(name, ps) == (if forall p | p in ps :: FlagOrText(p) then Ok(Id(Component(name, ps))) else Err(UnsupportedParameter))
  {
    ParamsSerialize(ps);
    hide SerializeParams;
    hide ParamsText;
    hide EscapeRest;
  }

  lemma {:induction false} ParamsSerialize(ps: seq<Param>)
    requires forall p | p in ps :: Written(p)
    ensures SerializeParams(ps) == (if forall p | p in ps :: FlagOrText(p) then Ok(ParamsText(ps)) else Err(UnsupportedParameter))
  {
    hide ParamText;
    hide KeyOk;
    if ps != [] {
      assert ps[0] in ps && forall p | p in ps[1..] :: p in ps;
      ParamsSerialize(ps[1..]);
      assert ps == [ps[0]] + ps[1..];
    }
  }

  /** What the loop over components has taken. */
  lemma {:induction false} ListSound(u: string, count: nat, base64: Base64) returns (cs: seq<Component>)
    requires ParseComponents(u, count, base64).Ok? && count <= 32
    ensures var r := ParseComponents(u, count, base64).value;
            && StartsWithList(u, cs, r.rest, base64) && r.value == Ids(cs) && AllFlagsOrTexts(cs) && count + |cs| <= 32
    decreases |u|
  {
    hide ParseString;
    hide ParseParams;
    hide SerializeComponent;
    hide SkipSpaces;
    hide StartsWithParams;
    hide Id;
    if Starts(u, ')') {
      cs := [];
      assert u == ")" + u[1..];
    } else {
      var c, t, mid, k, next := ComponentSound(u, count, base64);
      var others := ListSound(next, count + 1, base64);
      cs := [c] + others;
      assert cs[0] == c && cs[1..] == others;
      assert Ids(cs) == [Id(c)] + Ids(others);
      ListMore(u, cs, ParseComponents(u, count, base64).value.rest, base64, t, mid, k, next);
    }
  }

  /** What one turn of the loop has taken. */
  lemma ComponentSound(u: string, count: nat, base64: Base64) returns (c: Component, t: string, mid: string, k: nat, next: string)
    requires ParseComponents(u, count, base64).Ok? && !Starts(u, ')')
    ensures StartsWithComponent(u, c, t, mid, k, next, base64) && |next| < |u|
    ensures (forall p | p in c.params :: FlagOrText(p)) && count < 32
    ensures var more := ParseComponents(next, count + 1, base64);
            more.Ok? && ParseComponents(u, count, base64) == Ok(Parsed([Id(c)] + more.value.value, more.value.rest))
  {
    hide ParseString;
    hide ParseParams;
    hide SerializeComponent;
    hide SkipSpaces;
    hide StartsWithParams;
    hide Spaces;
    hide IsString;
    hide Id;
    var name := ParseString(u).value;
    var ps := ParseParams(name.rest, base64).value;
    t := StringTaken(u);
    mid, next := name.rest, SkipSpaces(ps.rest);
    ParamsTaken(name.rest, base64);
    StringsPrintable(t, name.value);
    SerializesExactly(name.value, ps.value);
    k := SkipExactly(ps.rest);
    SpacesThen(k, next);
    c := Component(name.value, ps.value);
  }

  lemma StringTaken(u: string) returns (t: string)
    requires ParseString(u).Ok?
    ensures u == "\"" + t + ParseString(u).value.rest && IsString(t, ParseString(u).value.value)
  {
    BodySound(u[1..]);
    t := Front(u[1..], ParseString(u).value.rest);
  }

  lemma ParamsTaken(u: string, base64: Base64)
    requires ParseParams(u, base64).Ok?
    ensures var r := ParseParams(u, base64).value;
            StartsWithParams(u, r.value, r.rest, base64) && forall p | p in r.value :: Written(p)
  {
    var r := ParseParams(u, base64).value;
    hide ParseParams;
    hide StartsWithParams;
    hide Written;
    ParamsExactly(u, r.value, r.rest, base64);
    ParamsWritten(u, r.value, r.rest, base64);
  }

  lemma SpacesThen(k: nat, next: string)
    ensures var u := Spaces(k) + next;
            && (k > 0 ==> Starts(u, ' ')) && (k == 0 ==> u == next)
  {
    assert k == 0 ==> Spaces(k) == "";
    assert k > 0 ==> (Spaces(k) + next)[0] == ' ';
  }

  lemma ListMore(u: string, cs: seq<Component>, rest: string, base64: Base64, t: string, mid: string, k: nat, next: string)
    requires cs != [] && StartsWithComponent(u, cs[0], t, mid, k, next, base64) && StartsWithList(next, cs[1..], rest, base64)
    ensures StartsWithList(u, cs, rest, base64)
  {
    hide StartsWithComponent;
  }

  lemma {:induction false} ListComplete(u: string, cs: seq<Component>, rest: string, count: nat, base64: Base64)
    requires StartsWithList(u, cs, rest, base64) && AllFlagsOrTexts(cs) && count + |cs| <= 32
    ensures ParseComponents(u, count, base64) == Ok(Parsed(Ids(cs), rest))
    decreases |cs|
  {
    hide ParseComponents;
    hide StartsWithComponent;
    hide Id;
    hide FlagOrText;
    if cs == [] {
      NothingListed(u, rest, count, base64);
    } else {
      var t, mid, k, next :| StartsWithComponent(u, cs[0], t, mid, k, next, base64) && StartsWithList(next, cs[1..], rest, base64);
      hide StartsWithList;
      var c := cs[0];
      assert c in cs && forall d | d in cs[1..] :: d in cs;
      ListComplete(next, cs[1..], rest, count + 1, base64);
      Turn(u, t, mid, k, next, c, count, base64);
      assert Ids(cs) == [Id(c)] + Ids(cs[1..]);
    }
  }

  lemma NothingListed(u: string, rest: string, count: nat, base64: Base64)
    requires u == ")" + rest
    ensures ParseComponents(u, count, base64) == Ok(Parsed(Ids([]), rest))
  {
    assert u[0] == ')' && u[1..] == rest;
    assert Ids([]) == [];
  }

  /** One turn of the loop over a component as it is written. */
  lemma Turn(u: string, t: string, mid: string, k: nat, next: string, c: Component, count: nat, base64: Base64)
    requires StartsWithComponent(u, c, t, mid, k, next, base64) && count < 32
    requires forall p | p in c.params :: FlagOrText(p)
    ensures ParseComponents(u, count, base64)
            == match ParseComponents(next, count + 1, base64)
               case Err(f) => Err(f)
               case Ok(Parsed(ids, end)) => Ok(Parsed([Id(c)] + ids, end))
  {
    hide IsString;
    hide ParseComponents;
    hide ParseString;
    hide ParseParams;
    hide SerializeComponent;
    hide SkipSpaces;
    hide StartsWithParams;
    hide Spaces;
    hide Id;
    hide FlagOrText;
    hide Written;
    StringRead(t, c.name, mid);
    ParamsExactly(mid, c.params, Spaces(k) + next, base64);
    ParamsWritten(mid, c.params, Spaces(k) + next, base64);
    StringsPrintable(t, c.name);
    SerializesExactly(c.name, c.params);
    SkipBack(k, next);
    SpacesThen(k, next);
    ComponentsStep(u, count, base64);
  }

  lemma StringRead(t: string, s: string, rest: string)
    requires IsString(t, s)
    ensures var u := "\"" + t + rest;
            Starts(u, '\"') && ParseString(u) == Ok(Parsed(s, rest))
  {
    hide IsString;
    hide ParseStringBody;
    BodyComplete(t, s, rest);
    DropPrefix("\"", t, rest);
    assert ("\"" + t + rest)[0] == '\"';
  }

  // ---------------------------------------------------------------------------
  // The parameters
  // ---------------------------------------------------------------------------

  /** `created` and `expires` are integers from 0 up, the four texts are texts; other keys may have any value. */
  predicate Typed(p: Param) {
    match p.key
    case "created" => p.value.Int? && p.value.n >= 0
    case "expires" => p.value.Int? && p.value.n >= 0
    case "nonce" => p.value.Str?
    case "alg" => p.value.Str?
    case "keyid" => p.value.Str?
    case "tag" => p.value.Str?
    case _ => true
  }

  /** The record holds what the parameters say, and nothing else. */
  ghost predicate Says(ps: seq<Param>, r: SignatureParams) {
    && (forall n :: r.created == Some(n) <==> Param("created", Int(n)) in ps)
    && (forall n :: r.expires == Some(n) <==> Param("expires", Int(n)) in ps)
    && (forall s :: r.nonce == Some(s) <==> Param("nonce", Str(s)) in ps)
    && (forall s :: r.alg == Some(s) <==> Param("alg", Str(s)) in ps)
    && (forall s :: r.keyid == Some(s) <==> Param("keyid", Str(s)) in ps)
    && (forall s :: r.tag == Some(s) <==> Param("tag", Str(s)) in ps)
  }

  function IntUnder(ps: seq<Param>, key: string): Option<int> {
    if ps == [] then None else if ps[0].key == key && ps[0].value.Int? then Some(ps[0].value.n) else IntUnder(ps[1..], key)
  }

  function TextUnder(ps: seq<Param>, key: string): Option<string> {
    if ps == [] then None else if ps[0].key == key && ps[0].value.Str? then Some(ps[0].value.s) else TextUnder(ps[1..], key)
  }

  lemma {:induction false} UnderExactly(ps: seq<Param>, key: string)
    requires DistinctKeys(ps)
    ensures forall n :: IntUnder(ps, key) == Some(n) <==> Param(key, Int(n)) in ps
    ensures forall s :: TextUnder(ps, key) == Some(s) <==> Param(key, Str(s)) in ps
  {
    if ps != [] {
      UnderExactly(ps[1..], key);
      assert forall p | p in ps[1..] :: p.key != ps[0].key by {
        forall i | 0 <= i < |ps[1..]|
          ensures ps[1..][i].key != ps[0].key
        {
          assert ps[1..][i] == ps[i + 1];
        }
      }
      assert ps == [ps[0]] + ps[1..];
    }
  }

  function OrElse<T>(a: Option<T>, b: Option<T>): Option<T> { if a.Some? then a else b }

  lemma {:induction false} MeaningIs(ps: seq<Param>, acc: SignatureParams)
    requires DistinctKeys(ps)
    ensures Meaning(ps, acc)
            == SignatureParams(
              OrElse(IntUnder(ps, "created"), acc.created), OrElse(IntUnder(ps, "expires"), acc.expires),
              OrElse(TextUnder(ps, "nonce"), acc.nonce), OrElse(TextUnder(ps, "alg"), acc.alg),
              OrElse(TextUnder(ps, "keyid"), acc.keyid), OrElse(TextUnder(ps, "tag"), acc.tag))
    decreases |ps|
  {
    if ps != [] {
      MeaningIs(ps[1..], Assign(acc, ps[0]));
      NotAgain(ps, ps[0].key);
    }
  }

  lemma NotAgain(ps: seq<Param>, key: string)
    requires DistinctKeys(ps) && ps != [] && ps[0].key == key
    ensures IntUnder(ps[1..], key) == None && TextUnder(ps[1..], key) == None
  {
    forall p | p in ps[1..]
      ensures p.key != key
    {
      var i :| 0 <= i < |ps[1..]| && ps[1..][i] == p;
      assert ps[i + 1] == p;
    }
    NotUnder(ps[1..], key);
  }

  lemma {:induction false} NotUnder(ps: seq<Param>, key: string)
    requires forall p | p in ps :: p.key != key
    ensures IntUnder(ps, key) == None && TextUnder(ps, key) == None
  {
    if ps != [] {
      assert ps[0] in ps && forall p | p in ps[1..] :: p in ps;
      NotUnder(ps[1..], key);
    }
  }

  lemma TypedExactly(p: Param)
    ensures Typed(p) <==> WellTyped(p)
  {
  }

  lemma {:induction false} InterpretNeeds(ps: seq<Param>, seen: set<string>, acc: SignatureParams)
    requires Interpret(ps, seen, acc).Ok?
    ensures DistinctKeys(ps) && forall p | p in ps :: p.key !in seen && WellTyped(p)
    decreases |ps|
  {
    hide WellTyped;
    hide Assign;
    if ps != [] {
      InterpretNeeds(ps[1..], seen + {ps[0].key}, Assign(acc, ps[0]));
      assert ps == [ps[0]] + ps[1..];
      assert forall i | 1 <= i < |ps| :: ps[i] in ps[1..];
    }
  }

  /** Parameters are understood exactly when no key is repeated and those with a meaning have their types; then the record
      holds what they say. */
  lemma InterpretExactly(ps: seq<Param>, r: SignatureParams)
    ensures Interpret(ps, {}, NO_PARAMS) == Ok(r) <==> DistinctKeys(ps) && (forall p | p in ps :: Typed(p)) && Says(ps, r)
  {
    forall p
      ensures Typed(p) <==> WellTyped(p)
    {
      TypedExactly(p);
    }
    hide Typed;
    hide WellTyped;
    hide Assign;
    if Interpret(ps, {}, NO_PARAMS).Ok? {
      InterpretNeeds(ps, {}, NO_PARAMS);
    }
    hide Interpret;
    if DistinctKeys(ps) && forall p | p in ps :: Typed(p) {
      InterpretIsMeaning(ps, {}, NO_PARAMS);
      MeaningIs(ps, NO_PARAMS);
      SaysExactly(ps, r);
    }
  }

  lemma SaysExactly(ps: seq<Param>, r: SignatureParams)
    requires DistinctKeys(ps)
    ensures Says(ps, r) <==>
              r == SignatureParams(
                IntUnder(ps, "created"), IntUnder(ps, "expires"), TextUnder(ps, "nonce"), TextUnder(ps, "alg"),
                TextUnder(ps, "keyid"), TextUnder(ps, "tag"))
  {
    hide IntUnder;
    hide TextUnder;
    hide DistinctKeys;
    UnderExactly(ps, "created");
    UnderExactly(ps, "expires");
    UnderExactly(ps, "nonce");
    UnderExactly(ps, "alg");
    UnderExactly(ps, "keyid");
    UnderExactly(ps, "tag");
    if Says(ps, r) {
      SameInt(ps, "created", r.created);
      SameInt(ps, "expires", r.expires);
      SameOption(r.nonce, TextUnder(ps, "nonce"));
      SameOption(r.alg, TextUnder(ps, "alg"));
      SameOption(r.keyid, TextUnder(ps, "keyid"));
      SameOption(r.tag, TextUnder(ps, "tag"));
    }
  }

  lemma SameInt(ps: seq<Param>, key: string, a: Option<int>)
    requires forall n :: a == Some(n) <==> Param(key, Int(n)) in ps
    requires forall n :: IntUnder(ps, key) == Some(n) <==> Param(key, Int(n)) in ps
    ensures a == IntUnder(ps, key)
  {
    if a.Some? {
      assert Param(key, Int(a.value)) in ps;
    }
    if IntUnder(ps, key).Some? {
      assert Param(key, Int(IntUnder(ps, key).value)) in ps;
    }
  }

  lemma SameOption<T>(a: Option<T>, b: Option<T>)
    requires forall x :: a == Some(x) <==> b == Some(x)
    ensures a == b
  {
    if a.Some? {
      assert b == Some(a.value);
    }
    if b.Some? {
      assert a == Some(b.value);
    }
  }

  // ---------------------------------------------------------------------------
  // A whole member
  // ---------------------------------------------------------------------------

  /** The text is a parenthesised list of components and parameters after it. */
  ghost predicate IsMember(raw: string, cs: seq<Component>, ps: seq<Param>, base64: Base64) {
    exists k: nat, list, rest ::
      raw == "(" + Spaces(k) + list && (list == "" || list[0] != ' ')
      && StartsWithList(list, cs, rest, base64) && StartsWithParams(rest, ps, "", base64)
  }

  ghost predicate Reads(raw: string, ids: seq<string>, r: SignatureParams, cs: seq<Component>, ps: seq<Param>, base64: Base64) {
    && IsMember(raw, cs, ps, base64) && |cs| <= 32 && AllFlagsOrTexts(cs) && ids == Ids(cs)
    && DistinctKeys(ps) && (forall p | p in ps :: Typed(p)) && Says(ps, r)
  }

  /** A member is accepted exactly when it lists at most 32 components, with flags and texts as parameters, and its own
      parameters are not repeated and have their types; the record holds what they say. */
  lemma MemberExactly(raw: string, ids: seq<string>, r: SignatureParams, base64: Base64)
    ensures ParseInput(raw, base64) == Ok((ids, r)) <==> exists cs, ps :: Reads(raw, ids, r, cs, ps, base64)
  {
    hide Reads;
    hide ParseInput;
    if ParseInput(raw, base64) == Ok((ids, r)) {
      MemberSound(raw, base64);
    }
    if exists cs, ps :: Reads(raw, ids, r, cs, ps, base64) {
      var cs, ps :| Reads(raw, ids, r, cs, ps, base64);
      MemberComplete(raw, ids, r, cs, ps, base64);
    }
  }

  lemma MemberSound(raw: string, base64: Base64)
    requires ParseInput(raw, base64).Ok?
    ensures exists cs, ps :: Reads(raw, ParseInput(raw, base64).value.0, ParseInput(raw, base64).value.1, cs, ps, base64)
  {
    hide ParseComponents;
    hide ParseParams;
    hide Interpret;
    hide SkipSpaces;
    hide StartsWithList;
    hide StartsWithParams;
    hide Says;
    hide Typed;
    hide DistinctKeys;
    hide AllFlagsOrTexts;
    hide Ids;
    var list := SkipSpaces(raw[1..]);
    var k := SkipExactly(raw[1..]);
    var cs := ListSound(list, 0, base64);
    var rest := ParseComponents(list, 0, base64).value.rest;
    var ps := ParseParams(rest, base64).value;
    ParamsExactly(rest, ps.value, "", base64);
    var r := ParseInput(raw, base64).value.1;
    InterpretExactly(ps.value, r);
    assert raw == "(" + Spaces(k) + list by {
      assert raw == "(" + raw[1..];
      Regroup("(", Spaces(k), list);
    }
    assert IsMember(raw, cs, ps.value, base64);
    assert Reads(raw, ParseInput(raw, base64).value.0, r, cs, ps.value, base64);
  }

  lemma MemberComplete(raw: string, ids: seq<string>, r: SignatureParams, cs: seq<Component>, ps: seq<Param>, base64: Base64)
    requires Reads(raw, ids, r, cs, ps, base64)
    ensures ParseInput(raw, base64) == Ok((ids, r))
  {
    hide ParseComponents;
    hide ParseParams;
    hide Interpret;
    hide SkipSpaces;
    hide StartsWithList;
    hide StartsWithParams;
    hide Says;
    hide Typed;
    hide DistinctKeys;
    hide AllFlagsOrTexts;
    hide Ids;
    var k: nat, list, rest :| raw == "(" + Spaces(k) + list && (list == "" || list[0] != ' ')
      && StartsWithList(list, cs, rest, base64) && StartsWithParams(rest, ps, "", base64);
    Regroup("(", Spaces(k), list);
    assert raw[0] == '(' && raw[1..] == Spaces(k) + list;
    SkipBack(k, list);
    ListComplete(list, cs, rest, 0, base64);
    ParamsExactly(rest, ps, "", base64);
    InterpretExactly(ps, r);
  }

  // ---------------------------------------------------------------------------
  // What is printed and signed
  // ---------------------------------------------------------------------------

  function Number(name: string, n: Option<int>): string { if n.Some? then name + IntText(n.value) else "" }

  function Quoted(name: string, s: Option<string>): string { if s.Some? then name + "\"" + EscapeRest(s.value) else "" }

  /** The parameters are printed in one order, under their names. */
  lemma SerializeFormat(ids: seq<string>, p: SignatureParams)
    requires PrintableParams(p)
    ensures Serialize(ids, p)
            == Ok("(" + Join(ids, " ") + ")" + Number(";created=", p.created) + Quoted(";keyid=", p.keyid) + Quoted(";alg=", p.alg)
                  + Number(";expires=", p.expires) + Quoted(";nonce=", p.nonce) + Quoted(";tag=", p.tag))
  {
    hide ParamsText;
    hide ParamList;
    hide Number;
    hide Quoted;
    hide Join;
    hide OptionalInt;
    hide OptionalStr;
    var inner := "(" + Join(ids, " ") + ")";
    SixParts(inner, p);
    Labels();
    IntPrinted("created", p.created);
    StrPrinted("keyid", p.keyid);
    StrPrinted("alg", p.alg);
    IntPrinted("expires", p.expires);
    StrPrinted("nonce", p.nonce);
    StrPrinted("tag", p.tag);
    Regroup("(" + Join(ids, " "), ")", ParamsText(ParamList(p)));
    Regroup("(", Join(ids, " "), ")" + ParamsText(ParamList(p)));
  }

  lemma Labels()
    ensures ";" + "created" + "=" == ";created=" && ";" + "keyid" + "=" == ";keyid=" && ";" + "alg" + "=" == ";alg="
    ensures ";" + "expires" + "=" == ";expires=" && ";" + "nonce" + "=" == ";nonce=" && ";" + "tag" + "=" == ";tag="
  {
  }

  lemma IntPrinted(key: string, n: Option<int>)
    ensures ParamsText(OptionalInt(key, n)) == Number(";" + key + "=", n)
  {
    if n.Some? {
      PrintedAlone(Param(key, Int(n.value)), "");
      Regroup(";", key, "=" + IntText(n.value));
    }
  }

  lemma StrPrinted(key: string, s: Option<string>)
    ensures ParamsText(OptionalStr(key, s)) == Quoted(";" + key + "=", s)
  {
    hide EscapeRest;
    if s.Some? {
      PrintedAlone(Param(key, Str(s.value)), "");
      assert Quoted(";" + key + "=", s) == ";" + (key + ("=\"" + EscapeRest(s.value)));
    }
  }

  /** The text of the covered components: a line each, identifier, colon and value. */
  function CoveredText(ids: seq<string>, resolve: Resolver): string
    requires Resolved(ids, resolve)
  {
    if ids == [] then "" else ids[0] + ": " + resolve(ids[0]).value + "\n" + CoveredText(ids[1..], resolve)
  }

  predicate Resolved(ids: seq<string>, resolve: Resolver) { forall i | 0 <= i < |ids| :: resolve(ids[i]).Some? }

  /** No identifier twice, a value for each, and no value with a line break. */
  predicate Coverable(ids: seq<string>, resolve: Resolver) {
    && (forall i, j | 0 <= i < j < |ids| :: ids[i] != ids[j])
    && forall i | 0 <= i < |ids| ::
         resolve(ids[i]).Some? && '\n' !in resolve(ids[i]).value && '\r' !in resolve(ids[i]).value
  }

  /** A base is built exactly for coverable components whose lines, with the parameters last, are ASCII, and is those
      lines. */
  lemma BaseExactly(ids: seq<string>, signatureParams: string, resolve: Resolver, text: string)
    ensures Base(ids, signatureParams, resolve) == Ok(text) <==>
              && Coverable(ids, resolve)
              && text == CoveredText(ids, resolve) + "\"@signature-params\": " + signatureParams
              && forall c | c in text :: c as int < 0x80
  {
    LinesExactly(ids, {}, resolve);
    hide Lines;
    hide Coverable;
    if Coverable(ids, resolve) {
      assert Resolved(ids, resolve) by { CoverableResolved(ids, resolve); }
      Regroup(CoveredText(ids, resolve), PARAMS_LABEL, signatureParams);
    }
    hide CoveredText;
  }

  lemma CoverableResolved(ids: seq<string>, resolve: Resolver)
    requires Coverable(ids, resolve)
    ensures Resolved(ids, resolve)
  {
  }

  lemma {:induction false} LinesExactly(ids: seq<string>, seen: set<string>, resolve: Resolver)
    ensures Lines(ids, seen, resolve).Ok? <==> Coverable(ids, resolve) && forall i | 0 <= i < |ids| :: ids[i] !in seen
    ensures Coverable(ids, resolve) && Lines(ids, seen, resolve).Ok? ==> Lines(ids, seen, resolve).value == CoveredText(ids, resolve)
    decreases |ids|
  {
    if ids != [] {
      var tail := ids[1..];
      LinesExactly(tail, seen + {ids[0]}, resolve);
      CoverableStep(ids, seen, resolve);
      hide Coverable;
      if Coverable(ids, resolve) {
        CoverableResolved(ids, resolve);
        CoverableResolved(tail, resolve);
        Regroup(ids[0], ": ", resolve(ids[0]).value);
        Regroup(ids[0] + ": " + resolve(ids[0]).value, "\n", CoveredText(tail, resolve));
      }
    }
  }

  lemma CoverableStep(ids: seq<string>, seen: set<string>, resolve: Resolver)
    requires ids != []
    ensures Coverable(ids, resolve) && (forall i | 0 <= i < |ids| :: ids[i] !in seen) <==>
              && resolve(ids[0]).Some? && NoBreak(resolve(ids[0]).value) && ids[0] !in seen
              && Coverable(ids[1..], resolve) && forall i | 0 <= i < |ids[1..]| :: ids[1..][i] !in seen + {ids[0]}
    ensures Coverable(ids, resolve) ==> Coverable(ids[1..], resolve)
  {
    var tail := ids[1..];
    assert forall i | 1 <= i < |ids| :: ids[i] == tail[i - 1];
    assert forall i | 0 <= i < |tail| :: tail[i] == ids[i + 1];
  }
}
