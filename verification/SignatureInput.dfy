/** `Signature-Input` members and the signature base (sections 2.3 and 2.5 of RFC 9421;
    src/httpMessageSignatures.ts) as functions, and why a base says exactly what was signed. */
module SignatureInput {
  import opened Prelude
  import opened Text
  import opened StructuredFields

  const MAX_COMPONENTS: nat := 32

  // ---------------------------------------------------------------------------
  // Components
  // ---------------------------------------------------------------------------

  /** A covered component: a name, with parameters that are flags or strings. */
  datatype Component = Component(name: string, params: seq<Param>)

  predicate ComponentParam(p: Param) { KeyOk(p.key) && ((p.value.Str? && Printable(p.value.s)) || p.value == Bool(true)) }

  predicate ComponentOk(c: Component) { Printable(c.name) && forall p | p in c.params :: ComponentParam(p) }

  /** A normalized component identifier. */
  function Id(c: Component): string { "\"" + EscapeRest(c.name) + ParamsText(c.params) }

  function SerializeParams(ps: seq<Param>): Result<string, Fault> {
    if ps == [] then Ok("")
    else if ps[0].value != Bool(true) && !ps[0].value.Str? then Err(UnsupportedParameter)
    else if ps[0].value.Str? && !Printable(ps[0].value.s) then Err(NonAsciiValue)
    else
      var rest :- SerializeParams(ps[1..]);
      Ok(ParamText(ps[0]) + rest)
  }

  function SerializeComponent(name: string, ps: seq<Param>): Result<string, Fault> {
    var quoted :- Quote(name);
    var params :- SerializeParams(ps);
    Ok(quoted + params)
  }

  lemma {:induction false} SerializesParams(ps: seq<Param>)
    requires forall p | p in ps :: ComponentParam(p)
    ensures SerializeParams(ps) == Ok(ParamsText(ps))
  {
    if ps != [] {
      assert ps[0] in ps && forall p | p in ps[1..] :: p in ps;
      SerializesParams(ps[1..]);
    }
  }

  /** A normalized identifier is read back whole, and serialized to itself. */
  lemma ComponentBack(c: Component, rest: string, base64: Base64)
    requires ComponentOk(c) && Ends(rest)
    ensures ParseString(Id(c) + rest) == Ok(Parsed(c.name, ParamsText(c.params) + rest))
    ensures ParseParams(ParamsText(c.params) + rest, base64) == Ok(Parsed(c.params, rest))
    ensures SerializeComponent(c.name, c.params) == Ok(Id(c))
  {
    SerializesParams(c.params);
    StringBack(c.name, ParamsText(c.params) + rest);
    Regroup("\"" + EscapeRest(c.name), ParamsText(c.params), rest);
    forall p | p in c.params
      ensures ParamOk(p)
    {
      assert ComponentParam(p);
    }
    hide ParseParams;
    hide ParseString;
    hide ParamsText;
    ParamsBack(c.params, rest, base64);
  }

  function Ids(cs: seq<Component>): seq<string> {
    seq(|cs|, i requires 0 <= i < |cs| => Id(cs[i]))
  }

  // ---------------------------------------------------------------------------
  // Signature parameters
  // ---------------------------------------------------------------------------

  datatype SignatureParams = SignatureParams(
    created: Option<int>, expires: Option<int>, nonce: Option<string>, alg: Option<string>, keyid: Option<string>, tag: Option<string>)

  const NO_PARAMS: SignatureParams := SignatureParams(None, None, None, None, None, None)

  function OptionalInt(key: string, n: Option<int>): seq<Param> { if n.Some? then [Param(key, Int(n.value))] else [] }

  function OptionalStr(key: string, s: Option<string>): seq<Param> { if s.Some? then [Param(key, Str(s.value))] else [] }

  /** The parameters in the order they are printed. */
  function ParamList(p: SignatureParams): seq<Param> { OptionalInt("created", p.created) + AfterCreated(p) }

  function AfterCreated(p: SignatureParams): seq<Param> {
    OptionalStr("keyid", p.keyid) + (OptionalStr("alg", p.alg) + (OptionalInt("expires", p.expires) + AfterExpires(p)))
  }

  function AfterExpires(p: SignatureParams): seq<Param> { OptionalStr("nonce", p.nonce) + OptionalStr("tag", p.tag) }

  predicate PrintableOption(s: Option<string>) { s.Some? ==> Printable(s.value) }

  predicate PrintableParams(p: SignatureParams) {
    PrintableOption(p.nonce) && PrintableOption(p.alg) && PrintableOption(p.keyid) && PrintableOption(p.tag)
  }

  /** `serializeSignatureParams`; `Err` where a string is not printable ASCII. */
  function Serialize(ids: seq<string>, p: SignatureParams): Result<string, Fault> {
    if PrintableParams(p) then Ok("(" + (Join(ids, " ") + (")" + ParamsText(ParamList(p))))) else Err(NonAsciiValue)
  }

  // ---------------------------------------------------------------------------
  // Parsing
  // ---------------------------------------------------------------------------

  /** The inner list after its opening parenthesis, `count` components already read. */
  function ParseComponents(s: string, count: nat, base64: Base64): (r: Result<Parsed<seq<string>>, Fault>)
    decreases |s|
  {
    if Starts(s, ')') then Ok(Parsed([], s[1..]))
    else
      var name :- ParseString(s);
      var ps :- ParseParams(name.rest, base64);
      var id :- SerializeComponent(name.value, ps.value);
      if count + 1 > MAX_COMPONENTS then Err(TooManyComponents)
      else if !Starts(ps.rest, ' ') && !Starts(ps.rest, ')') then Err(MalformedField)
      else
        var more :- ParseComponents(SkipSpaces(ps.rest), count + 1, base64);
        Ok(Parsed([id] + more.value, more.rest))
  }

  predicate NumericKey(k: string) { k == "created" || k == "expires" }

  predicate TextKey(k: string) { k == "nonce" || k == "alg" || k == "keyid" || k == "tag" }

  predicate WellTyped(p: Param) {
    && (NumericKey(p.key) ==> p.value.Int? && p.value.n >= 0)
    && (TextKey(p.key) ==> p.value.Str?)
  }

  /** The record with one parameter set; parameters with no meaning are skipped. */
  function Assign(acc: SignatureParams, p: Param): SignatureParams {
    match p.value
    case Int(n) => if p.key == "created" then acc.(created := Some(n)) else if p.key == "expires" then acc.(expires := Some(n)) else acc
    case Str(s) =>
      if p.key == "nonce" then acc.(nonce := Some(s)) else if p.key == "alg" then acc.(alg := Some(s))
      else if p.key == "keyid" then acc.(keyid := Some(s)) else if p.key == "tag" then acc.(tag := Some(s)) else acc
    case _ => acc
  }

  function Interpret(ps: seq<Param>, seen: set<string>, acc: SignatureParams): Result<SignatureParams, Fault> {
    if ps == [] then Ok(acc)
    else if ps[0].key in seen then Err(DuplicateParameter)
    else if !WellTyped(ps[0]) then Err(MalformedParameter)
    else Interpret(ps[1..], seen + {ps[0].key}, Assign(acc, ps[0]))
  }

  /** `parseSignatureInputMember`. */
  function ParseInput(raw: string, base64: Base64): Result<(seq<string>, SignatureParams), Fault> {
    if !Starts(raw, '(') then Err(MalformedField)
    else
      var ids :- ParseComponents(SkipSpaces(raw[1..]), 0, base64);
      var params :- ParseTrailer(ids.rest, base64);
      Ok((ids.value, params))
  }

  /** The parameters, up to the end of the text. */
  function ParseTrailer(s: string, base64: Base64): Result<SignatureParams, Fault> {
    var ps :- ParseParams(s, base64);
    var params :- Interpret(ps.value, {}, NO_PARAMS);
    if ps.rest != "" then Err(MalformedField) else Ok(params)
  }

  // ---------------------------------------------------------------------------
  // Round trip: components
  // ---------------------------------------------------------------------------

  /** The inner list after its opening parenthesis. */
  function ListText(cs: seq<Component>): string {
    if cs == [] then ")" else if |cs| == 1 then Id(cs[0]) + ")" else Id(cs[0]) + (" " + ListText(cs[1..]))
  }

  lemma {:induction false} ListIsJoin(cs: seq<Component>)
    ensures ListText(cs) == Join(Ids(cs), " ") + ")"
  {
    hide Id;
    if |cs| > 1 {
      assert Ids(cs)[1..] == Ids(cs[1..]);
      ListIsJoin(cs[1..]);
      var a, b := Id(cs[0]), Join(Ids(cs[1..]), " ");
      Regroup(a, " ", b);
      Regroup(a, " " + b, ")");
      Regroup(" ", b, ")");
    }
  }

  lemma ListStart(cs: seq<Component>, tail: string)
    ensures var s := ListText(cs) + tail;
            && s != "" && SkipSpaces(s) == s && SkipSpaces(" " + s) == s
            && (cs == [] ==> Starts(s, ')') && s[1..] == tail) && (cs != [] ==> Starts(s, '\"'))
  {
    var s := ListText(cs) + tail;
    assert s[0] == ListText(cs)[0];
    if cs != [] {
      assert ListText(cs)[0] == Id(cs[0])[0] == '\"';
    }
    assert (" " + s)[0] == ' ' && (" " + s)[1..] == s;
  }

  lemma {:induction false} ComponentsBack(cs: seq<Component>, count: nat, tail: string, base64: Base64)
    requires (forall c | c in cs :: ComponentOk(c)) && count <= MAX_COMPONENTS
    ensures ParseComponents(ListText(cs) + tail, count, base64)
            == if count + |cs| <= MAX_COMPONENTS then Ok(Parsed(Ids(cs), tail)) else Err(TooManyComponents)
    decreases |cs|
  {
    hide Id;
    hide ComponentOk;
    hide ParseComponents;
    hide SkipSpaces;
    hide Ends;
    hide ListText;
    if cs == [] {
      NoComponents(count, tail, base64);
    } else {
      assert cs[0] in cs && forall c | c in cs[1..] :: c in cs;
      ListSplit(cs, tail);
      RestStart(cs, tail);
      var next := ListText(cs[1..]) + tail;
      ComponentThen(cs[0], if |cs| == 1 then ")" + tail else " " + next, next, count, base64);
      if count + 1 <= MAX_COMPONENTS {
        ComponentsBack(cs[1..], count + 1, tail, base64);
        assert Ids(cs) == [Id(cs[0])] + Ids(cs[1..]);
      }
    }
  }

  lemma NoComponents(count: nat, tail: string, base64: Base64)
    ensures ParseComponents(ListText([]) + tail, count, base64) == Ok(Parsed([], tail))
  {
    ListStart([], tail);
  }

  /** A printed component, and what follows it, in the loop over components. */
  lemma ComponentThen(c: Component, rest: string, next: string, count: nat, base64: Base64)
    requires ComponentOk(c) && Ends(rest) && (Starts(rest, ' ') || Starts(rest, ')')) && SkipSpaces(rest) == next
    ensures ParseComponents(Id(c) + rest, count, base64)
            == if count + 1 > MAX_COMPONENTS then Err(TooManyComponents)
               else
                 match ParseComponents(next, count + 1, base64)
                 case Err(f) => Err(f)
                 case Ok(Parsed(ids, end)) => Ok(Parsed([Id(c)] + ids, end))
  {
    hide ParseComponents;
    hide ParseParams;
    hide SerializeComponent;
    hide SkipSpaces;
    ComponentBack(c, rest, base64);
    assert Starts(Id(c) + rest, '\"') by { assert (Id(c) + rest)[0] == Id(c)[0] == '\"'; }
    hide ParseString;
    hide Id;
    ComponentsStep(Id(c) + rest, count, base64);
  }

  /** One turn of the loop over components. */
  lemma ComponentsStep(s: string, count: nat, base64: Base64)
    requires Starts(s, '\"') && ParseString(s).Ok? && ParseParams(ParseString(s).value.rest, base64).Ok?
    requires var ps := ParseParams(ParseString(s).value.rest, base64).value;
             SerializeComponent(ParseString(s).value.value, ps.value).Ok? && (Starts(ps.rest, ' ') || Starts(ps.rest, ')'))
    ensures var ps := ParseParams(ParseString(s).value.rest, base64).value;
            ParseComponents(s, count, base64)
            == if count + 1 > MAX_COMPONENTS then Err(TooManyComponents)
               else
                 match ParseComponents(SkipSpaces(ps.rest), count + 1, base64)
                 case Err(f) => Err(f)
                 case Ok(Parsed(ids, end)) => Ok(Parsed([SerializeComponent(ParseString(s).value.value, ps.value).value] + ids, end))
  {
    hide ParseString;
    hide ParseParams;
    hide SerializeComponent;
  }

  lemma ListSplit(cs: seq<Component>, tail: string)
    requires cs != []
    ensures ListText(cs) + tail == Id(cs[0]) + (if |cs| == 1 then ")" + tail else " " + (ListText(cs[1..]) + tail))
  {
    hide Id;
    if |cs| == 1 {
      Regroup(Id(cs[0]), ")", tail);
    } else {
      Regroup(Id(cs[0]), " " + ListText(cs[1..]), tail);
      Regroup(" ", ListText(cs[1..]), tail);
    }
  }

  lemma RestStart(cs: seq<Component>, tail: string)
    requires cs != []
    ensures var rest := if |cs| == 1 then ")" + tail else " " + (ListText(cs[1..]) + tail);
            Ends(rest) && (Starts(rest, ' ') || Starts(rest, ')')) && SkipSpaces(rest) == ListText(cs[1..]) + tail
  {
    ListStart(cs[1..], tail);
    if |cs| == 1 {
      assert cs[1..] == [];
    }
  }

  // ---------------------------------------------------------------------------
  // Round trip: parameters
  // ---------------------------------------------------------------------------

  /** The record a parameter list sets, whatever its order. */
  function Meaning(ps: seq<Param>, acc: SignatureParams): SignatureParams {
    if ps == [] then acc else Meaning(ps[1..], Assign(acc, ps[0]))
  }

  predicate DistinctKeys(ps: seq<Param>) { forall i, j | 0 <= i < j < |ps| :: ps[i].key != ps[j].key }

  lemma {:induction false} InterpretIsMeaning(ps: seq<Param>, seen: set<string>, acc: SignatureParams)
    requires DistinctKeys(ps) && forall p | p in ps :: p.key !in seen
    ensures (forall p | p in ps :: WellTyped(p)) ==> Interpret(ps, seen, acc) == Ok(Meaning(ps, acc))
    ensures (exists p | p in ps :: !WellTyped(p)) ==> Interpret(ps, seen, acc) == Err(MalformedParameter)
    decreases |ps|
  {
    hide WellTyped;
    hide Assign;
    if ps != [] {
      assert ps[0] in ps && forall p | p in ps[1..] :: p in ps;
      forall p | p in ps[1..]
        ensures p.key != ps[0].key
      {
        var i :| 0 <= i < |ps[1..]| && ps[1..][i] == p;
        assert ps[i + 1] == p;
      }
      InterpretIsMeaning(ps[1..], seen + {ps[0].key}, Assign(acc, ps[0]));
      if exists p | p in ps :: !WellTyped(p) {
        var p :| p in ps && !WellTyped(p);
        assert p == ps[0] || p in ps[1..];
      }
    }
  }

  lemma {:induction false} MeaningAppend(ps: seq<Param>, qs: seq<Param>, acc: SignatureParams)
    ensures Meaning(ps + qs, acc) == Meaning(qs, Meaning(ps, acc))
    decreases |ps|
  {
    hide Assign;
    if ps == [] {
      assert ps + qs == qs;
    } else {
      assert (ps + qs)[0] == ps[0] && (ps + qs)[1..] == ps[1..] + qs;
      MeaningAppend(ps[1..], qs, Assign(acc, ps[0]));
    }
  }

  lemma MeaningOne(p: Param, acc: SignatureParams)
    ensures Meaning([p], acc) == Assign(acc, p) && Meaning([], acc) == acc
  {
    assert [p][1..] == [];
  }

  /** The list a record is printed as sets exactly that record. */
  lemma ListMeans(p: SignatureParams)
    ensures Meaning(ParamList(p), NO_PARAMS) == p
  {
    hide Meaning;
    var a := NO_PARAMS.(created := p.created);
    var b := a.(keyid := p.keyid);
    var c := b.(alg := p.alg);
    var d := c.(expires := p.expires);
    var e := d.(nonce := p.nonce);
    MeaningAppend(OptionalInt("created", p.created), AfterCreated(p), NO_PARAMS);
    MeaningInt("created", p.created, NO_PARAMS);
    MeaningAppend(OptionalStr("keyid", p.keyid), OptionalStr("alg", p.alg) + (OptionalInt("expires", p.expires) + AfterExpires(p)), a);
    MeaningStr("keyid", p.keyid, a);
    MeaningAppend(OptionalStr("alg", p.alg), OptionalInt("expires", p.expires) + AfterExpires(p), b);
    MeaningStr("alg", p.alg, b);
    MeaningAppend(OptionalInt("expires", p.expires), AfterExpires(p), c);
    MeaningInt("expires", p.expires, c);
    MeaningAppend(OptionalStr("nonce", p.nonce), OptionalStr("tag", p.tag), d);
    MeaningStr("nonce", p.nonce, d);
    MeaningStr("tag", p.tag, e);
  }

  lemma MeaningInt(key: string, n: Option<int>, acc: SignatureParams)
    requires key == "created" || key == "expires"
    ensures n.Some? && key == "created" ==> Meaning(OptionalInt(key, n), acc) == acc.(created := n)
    ensures n.Some? && key == "expires" ==> Meaning(OptionalInt(key, n), acc) == acc.(expires := n)
    ensures n.None? ==> Meaning(OptionalInt(key, n), acc) == acc
  {
    if n.Some? {
      MeaningOne(Param(key, Int(n.value)), acc);
    } else {
      MeaningOne(Param(key, Bool(true)), acc);
    }
  }

  lemma MeaningStr(key: string, s: Option<string>, acc: SignatureParams)
    requires TextKey(key)
    ensures s.Some? ==> Meaning(OptionalStr(key, s), acc) == Assign(acc, Param(key, Str(s.value)))
    ensures s.None? ==> Meaning(OptionalStr(key, s), acc) == acc
  {
    MeaningOne(Param(key, if s.Some? then Str(s.value) else Bool(true)), acc);
  }

  /** The position of each key in the printed order. */
  function Rank(key: string): nat {
    if key == "created" then 0 else if key == "keyid" then 1 else if key == "alg" then 2
    else if key == "expires" then 3 else if key == "nonce" then 4 else 5
  }

  predicate Ranked(ps: seq<Param>, low: nat) {
    && (forall p | p in ps :: low <= Rank(p.key))
    && (forall i, j | 0 <= i < j < |ps| :: Rank(ps[i].key) < Rank(ps[j].key))
  }

  lemma RankedCons(first: seq<Param>, rest: seq<Param>, low: nat)
    requires |first| <= 1 && (first != [] ==> Rank(first[0].key) == low) && Ranked(rest, low + 1)
    ensures Ranked(first + rest, low)
  {
    hide Rank;
    var all := first + rest;
    if first != [] {
      forall i, j | 0 <= i < j < |all|
        ensures Rank(all[i].key) < Rank(all[j].key)
      {
        assert all[j] == rest[j - 1] && rest[j - 1] in rest;
        assert i > 0 ==> all[i] == rest[i - 1];
      }
    } else {
      assert all == rest;
    }
  }

  lemma Ranks()
    ensures Rank("created") == 0 && Rank("keyid") == 1 && Rank("alg") == 2 && Rank("expires") == 3 && Rank("nonce") == 4 && Rank("tag") == 5
  {
  }

  lemma RankedDistinct(ps: seq<Param>)
    requires Ranked(ps, 0)
    ensures DistinctKeys(ps)
  {
    hide Rank;
  }

  lemma ListRanked(p: SignatureParams)
    ensures DistinctKeys(ParamList(p))
  {
    hide Rank;
    hide Ranked;
    hide DistinctKeys;
    Ranks();
    assert Ranked([], 6) by { NothingRanked(); }
    RankedCons(OptionalStr("tag", p.tag), [], 5);
    assert OptionalStr("tag", p.tag) + [] == OptionalStr("tag", p.tag);
    RankedCons(OptionalStr("nonce", p.nonce), OptionalStr("tag", p.tag), 4);
    RankedCons(OptionalInt("expires", p.expires), AfterExpires(p), 3);
    RankedCons(OptionalStr("alg", p.alg), OptionalInt("expires", p.expires) + AfterExpires(p), 2);
    RankedCons(OptionalStr("keyid", p.keyid), OptionalStr("alg", p.alg) + (OptionalInt("expires", p.expires) + AfterExpires(p)), 1);
    RankedCons(OptionalInt("created", p.created), AfterCreated(p), 0);
    RankedDistinct(ParamList(p));
  }

  lemma NothingRanked()
    ensures Ranked([], 6)
  {
  }

  // --- which integers survive -------------------------------------------------

  predicate InRange(n: Option<int>) { n.Some? ==> 0 <= n.value < 1_000_000_000_000_000 }

  predicate Holds15(n: Option<int>) { n.Some? ==> IntOk(n.value) }

  predicate ListedParam(p: Param) { KeyOk(p.key) && ((p.value.Str? && Printable(p.value.s)) || p.value.Int?) }

  lemma KeysOk()
    ensures KeyOk("created") && KeyOk("expires") && KeyOk("nonce") && KeyOk("alg") && KeyOk("keyid") && KeyOk("tag")
  {
  }

  lemma Listed(p: SignatureParams)
    requires PrintableParams(p)
    ensures forall x | x in ParamList(p) :: ListedParam(x) && (x.value.Int? ==> NumericKey(x.key)) && (x.value.Str? ==> TextKey(x.key))
    ensures forall x | x in ParamList(p) && x.value.Int? :: Some(x.value.n) == (if x.key == "created" then p.created else p.expires)
    ensures p.created.Some? ==> Param("created", Int(p.created.value)) in ParamList(p)
    ensures p.expires.Some? ==> Param("expires", Int(p.expires.value)) in ParamList(p)
  {
    hide KeyOk;
    hide Printable;
    KeysOk();
    forall x | x in ParamList(p)
      ensures ListedParam(x) && (x.value.Int? ==> NumericKey(x.key)) && (x.value.Str? ==> TextKey(x.key))
      ensures x.value.Int? ==> Some(x.value.n) == (if x.key == "created" then p.created else p.expires)
    {
      FromSomePart(p, x);
    }
    PartsIn(p);
  }

  lemma FromSomePart(p: SignatureParams, x: Param)
    requires x in ParamList(p)
    ensures (p.created.Some? && x == Param("created", Int(p.created.value))) || (p.expires.Some? && x == Param("expires", Int(p.expires.value)))
            || (p.keyid.Some? && x == Param("keyid", Str(p.keyid.value))) || (p.alg.Some? && x == Param("alg", Str(p.alg.value)))
            || (p.nonce.Some? && x == Param("nonce", Str(p.nonce.value))) || (p.tag.Some? && x == Param("tag", Str(p.tag.value)))
  {
    hide OptionalInt;
    hide OptionalStr;
    assert x in OptionalInt("created", p.created) || x in OptionalStr("keyid", p.keyid) || x in OptionalStr("alg", p.alg)
        || x in OptionalInt("expires", p.expires) || x in OptionalStr("nonce", p.nonce) || x in OptionalStr("tag", p.tag);
    InInt("created", p.created, x);
    InInt("expires", p.expires, x);
    InStr("keyid", p.keyid, x);
    InStr("alg", p.alg, x);
    InStr("nonce", p.nonce, x);
    InStr("tag", p.tag, x);
  }

  lemma InInt(key: string, n: Option<int>, x: Param)
    ensures x in OptionalInt(key, n) <==> n.Some? && x == Param(key, Int(n.value))
  {
  }

  lemma InStr(key: string, s: Option<string>, x: Param)
    ensures x in OptionalStr(key, s) <==> s.Some? && x == Param(key, Str(s.value))
  {
  }

  lemma PartsIn(p: SignatureParams)
    ensures p.created.Some? ==> Param("created", Int(p.created.value)) in ParamList(p)
    ensures p.expires.Some? ==> Param("expires", Int(p.expires.value)) in ParamList(p)
  {
    hide OptionalInt;
    hide OptionalStr;
    if p.created.Some? {
      InInt("created", p.created, Param("created", Int(p.created.value)));
    }
    if p.expires.Some? {
      InInt("expires", p.expires, Param("expires", Int(p.expires.value)));
    }
  }

  /** A parameter whose integer is too long leaves digits behind, and the list ends there. */
  lemma CutHere(k: string, n: int, rest: string, base64: Base64)
    requires KeyOk(k) && !IntOk(n) && Follows(rest)
    ensures var r := ParseParams(ParamText(Param(k, Int(n))) + rest, base64);
            r.Ok? && r.value.rest != ""
  {
    var text := "=" + IntText(n);
    assert ValueText(Int(n)) == text;
    NumberBack(n, rest);
    IntStart(n, rest);
    hide IntText;
    assert text[1..] == IntText(n);
    BareNumber(IntText(n) + rest, base64);
    hide ParseBare;
    hide ParseNumber;
    hide ParseParam;
    var cut := ParseBare(text[1..] + rest, base64).value;
    ValuedCut(k, text, rest, base64);
    Regroup(";", k + text, rest);
    ParamsStep(k + text + rest, base64);
    assert !Starts(cut.rest, ';');
  }

  lemma ValuedCut(k: string, text: string, rest: string, base64: Base64)
    requires KeyOk(k) && text != "" && text[0] == '=' && ParseBare(text[1..] + rest, base64).Ok?
    ensures var v := ParseBare(text[1..] + rest, base64).value;
            ParseParam(k + text + rest, base64) == Ok(Parsed(Param(k, v.value), v.rest))
  {
    hide ParseKey;
    hide ParseBare;
    hide KeyOk;
    Regroup(k, text, rest);
    assert (text + rest)[0] == '=' && (text + rest)[1..] == text[1..] + rest;
    KeyBack(k, text + rest);
  }

  /** A list with an integer too long for the grammar is never parsed to its end. */
  lemma {:induction false} CutSomewhere(ps: seq<Param>, base64: Base64)
    requires (forall p | p in ps :: ListedParam(p)) && exists p | p in ps :: p.value.Int? && !IntOk(p.value.n)
    ensures ParseParams(ParamsText(ps), base64).Ok? ==> ParseParams(ParamsText(ps), base64).value.rest != ""
    decreases |ps|
  {
    hide ParseParam;
    hide ParamText;
    hide KeyOk;
    assert ps[0] in ps && forall p | p in ps[1..] :: p in ps;
    var tail := ParamsText(ps[1..]);
    assert tail + "" == tail;
    ParamsHead(ps[1..], "");
    if ps[0].value.Int? && !IntOk(ps[0].value.n) {
      CutHere(ps[0].key, ps[0].value.n, tail, base64);
    } else {
      var p :| p in ps && p.value.Int? && !IntOk(p.value.n);
      assert p in ps[1..];
      CutSomewhere(ps[1..], base64);
      FirstParsed(ps, base64);
    }
  }

  lemma FirstParsed(ps: seq<Param>, base64: Base64)
    requires ps != [] && ParamOk(ps[0])
    ensures ParseParams(ParamsText(ps), base64)
            == match ParseParams(ParamsText(ps[1..]), base64)
               case Err(f) => Err(f)
               case Ok(Parsed(qs, end)) => Ok(Parsed([ps[0]] + qs, end))
  {
    hide ParseParam;
    hide ParamOk;
    hide ValueText;
    var body, tail := ps[0].key + ValueText(ps[0].value), ParamsText(ps[1..]);
    ParamsHead(ps[1..], "");
    assert tail + "" == tail && ParamsText(ps) + "" == ParamsText(ps);
    ParamBack(ps[0], tail, base64);
    ParamsSplit(ps, "");
    hide ParamsText;
    ParamsStep(body + tail, base64);
  }

  lemma TailParsed(p: SignatureParams, base64: Base64)
    requires PrintableParams(p)
    ensures var r := ParseParams(ParamsText(ParamList(p)), base64);
            if Holds15(p.created) && Holds15(p.expires) then r == Ok(Parsed(ParamList(p), ""))
            else r.Ok? ==> r.value.rest != ""
  {
    hide ParamList;
    hide ParseParams;
    hide ParamsText;
    hide KeyOk;
    Listed(p);
    var ps := ParamList(p);
    if Holds15(p.created) && Holds15(p.expires) {
      forall x | x in ps
        ensures ParamOk(x)
      {
        assert ListedParam(x);
      }
      ParamsBack(ps, "", base64);
      assert ParamsText(ps) + "" == ParamsText(ps);
    } else {
      CutSomewhere(ps, base64);
    }
  }

  lemma Interpreted(p: SignatureParams)
    requires PrintableParams(p)
    ensures var r := Interpret(ParamList(p), {}, NO_PARAMS);
            if (p.created.Some? && p.created.value < 0) || (p.expires.Some? && p.expires.value < 0) then r.Err? else r == Ok(p)
  {
    hide ParamList;
    hide Interpret;
    hide Meaning;
    hide KeyOk;
    Listed(p);
    ListRanked(p);
    hide DistinctKeys;
    ListMeans(p);
    InterpretIsMeaning(ParamList(p), {}, NO_PARAMS);
    forall x | x in ParamList(p)
      ensures WellTyped(x) <==> !(x.value.Int? && x.value.n < 0)
    {
      assert ListedParam(x);
    }
    if p.created.Some? && p.created.value < 0 {
      assert !WellTyped(Param("created", Int(p.created.value)));
    } else if p.expires.Some? && p.expires.value < 0 {
      assert !WellTyped(Param("expires", Int(p.expires.value)));
    }
  }

  /** Parsing what was printed gives back the components and the parameters exactly when there are at most 32
      components and the two times are below 10^15 and not negative; otherwise nothing is parsed at all. */
  lemma ParsesBackExactly(cs: seq<Component>, p: SignatureParams, base64: Base64)
    requires (forall c | c in cs :: ComponentOk(c)) && PrintableParams(p)
    ensures Serialize(Ids(cs), p).Ok?
    ensures ParseInput(Serialize(Ids(cs), p).value, base64) == Ok((Ids(cs), p))
            <==> |cs| <= MAX_COMPONENTS && InRange(p.created) && InRange(p.expires)
    ensures ParseInput(Serialize(Ids(cs), p).value, base64).Ok? ==> ParseInput(Serialize(Ids(cs), p).value, base64) == Ok((Ids(cs), p))
  {
    hide ParseComponents;
    hide ParseParams;
    hide Interpret;
    hide ParamList;
    hide ParamsText;
    hide Ids;
    hide ComponentOk;
    hide SkipSpaces;
    hide ListText;
    hide Join;
    var tail := ParamsText(ParamList(p));
    ListIsJoin(cs);
    Regroup(Join(Ids(cs), " "), ")", tail);
    var raw := Serialize(Ids(cs), p).value;
    assert raw == "(" + (ListText(cs) + tail);
    assert raw[0] == '(' && raw[1..] == ListText(cs) + tail;
    ListStart(cs, tail);
    ComponentsBack(cs, 0, tail, base64);
    TailParsed(p, base64);
    Interpreted(p);
  }

  // ---------------------------------------------------------------------------
  // The signature base
  // ---------------------------------------------------------------------------

  datatype BaseFault = DuplicateComponent | ComponentFailed | InvalidValue | NonAsciiBase

  /** The value of a component of a message; `None` where `resolveComponent` throws. */
  type Resolver = string -> Option<string>

  predicate NoBreak(s: string) { forall c | c in s :: c != '\n' && c != '\r' }

  const PARAMS_LABEL: string := "\"@signature-params\": "

  /** One line for each component. */
  function Lines(ids: seq<string>, seen: set<string>, resolve: Resolver): Result<string, BaseFault> {
    if ids == [] then Ok("")
    else if ids[0] in seen then Err(DuplicateComponent)
    else
      var value := resolve(ids[0]);
      if value.None? then Err(ComponentFailed)
      else if !NoBreak(value.value) then Err(InvalidValue)
      else
        var rest :- Lines(ids[1..], seen + {ids[0]}, resolve);
        Ok(ids[0] + (": " + value.value) + ("\n" + rest))
  }

  predicate Ascii(s: string) { forall c | c in s :: c <= 127 as char }

  /** `buildSignatureBase`. */
  function Base(ids: seq<string>, signatureParams: string, resolve: Resolver): Result<string, BaseFault> {
    var lines :- Lines(ids, {}, resolve);
    var out := lines + (PARAMS_LABEL + signatureParams);
    if Ascii(out) then Ok(out) else Err(NonAsciiBase)
  }

  predicate NotLf(c: char) { c != '\n' }

  /** A first line is found again: everything before the first line feed. */
  lemma LineCancel(a: string, r: string, b: string, t: string)
    requires a + ("\n" + r) == b + ("\n" + t) && NoBreak(a) && NoBreak(b)
    ensures a == b && r == t
  {
    assert All(a, NotLf) && All(b, NotLf);
    Munch(a, "\n" + r, b, "\n" + t, NotLf);
    Cancel("\n", r, "\n", t);
  }

  /** A text without line feeds is not one that starts with a line. */
  lemma NoLineIn(s: string, a: string, r: string)
    requires NoBreak(s)
    ensures s != a + ("\n" + r)
  {
    var t := a + ("\n" + r);
    assert t[|a|] == '\n' && t[|a|] in t;
  }

  lemma {:induction false} EscapeOneLine(s: string)
    requires Printable(s)
    ensures NoBreak(EscapeRest(s))
  {
    if s != "" {
      assert s[0] in s && forall c | c in s[1..] :: c in s;
      EscapeOneLine(s[1..]);
    }
  }

  lemma KeyOneLine(k: string)
    requires KeyOk(k)
    ensures NoBreak(k)
  {
    assert forall c | c in k :: KeyChar(c);
  }

  lemma OneLineJoin(a: string, b: string)
    requires NoBreak(a) && NoBreak(b)
    ensures NoBreak(a + b)
  {
  }

  lemma {:induction false} ParamsOneLine(ps: seq<Param>)
    requires forall p | p in ps :: ListedParam(p) || ComponentParam(p)
    ensures NoBreak(ParamsText(ps))
  {
    if ps != [] {
      var p := ps[0];
      assert p in ps && forall q | q in ps[1..] :: q in ps;
      ParamsOneLine(ps[1..]);
      KeyOneLine(p.key);
      ValueOneLine(p.value);
      OneLineJoin(p.key, ValueText(p.value));
      OneLineJoin(";", p.key + ValueText(p.value));
      OneLineJoin(ParamText(p), ParamsText(ps[1..]));
    }
  }

  lemma ValueOneLine(v: Bare)
    requires v.Str? ==> Printable(v.s)
    ensures NoBreak(ValueText(v))
  {
    match v
    case Str(s) => EscapeOneLine(s);
    case Int(n) => assert forall c | c in IntText(n) :: NumberChar(c);
    case _ =>
  }

  lemma IdOneLine(c: Component)
    requires ComponentOk(c)
    ensures NoBreak(Id(c))
  {
    EscapeOneLine(c.name);
    ParamsOneLine(c.params);
    OneLineJoin("\"" + EscapeRest(c.name), ParamsText(c.params));
  }

  /** A component and its value are read off one line. */
  lemma ComponentLineCancel(c: Component, v: string, d: Component, w: string)
    requires ComponentOk(c) && ComponentOk(d) && Id(c) + (": " + v) == Id(d) + (": " + w)
    ensures c == d && v == w
  {
    hide Id;
    hide ComponentOk;
    hide ParseString;
    hide ParseParams;
    hide SerializeComponent;
    ColonEnds(v);
    ColonEnds(w);
    hide Ends;
    ComponentBack(c, ": " + v, _ => false);
    ComponentBack(d, ": " + w, _ => false);
    Cancel(": ", v, ": ", w);
  }

  lemma ColonEnds(v: string)
    ensures Ends(": " + v)
  {
    assert (": " + v)[0] == ':';
  }

  lemma LinesFirst(ids: seq<string>, seen: set<string>, resolve: Resolver)
    requires ids != [] && Lines(ids, seen, resolve).Ok?
    ensures resolve(ids[0]).Some? && NoBreak(resolve(ids[0]).value) && Lines(ids[1..], seen + {ids[0]}, resolve).Ok?
    ensures Lines(ids, seen, resolve).value
            == ids[0] + (": " + resolve(ids[0]).value) + ("\n" + Lines(ids[1..], seen + {ids[0]}, resolve).value)
  {
  }

  /** Lines and what follows them determine the components, their values and what follows. */
  lemma {:induction false} LinesCancel(
      cs: seq<Component>, seen: set<string>, r: Resolver, end: string, ds: seq<Component>, seen': set<string>, q: Resolver, end': string)
    requires (forall c | c in cs :: ComponentOk(c)) && (forall d | d in ds :: ComponentOk(d)) && NoBreak(end) && NoBreak(end')
    requires Lines(Ids(cs), seen, r).Ok? && Lines(Ids(ds), seen', q).Ok?
    requires Lines(Ids(cs), seen, r).value + end == Lines(Ids(ds), seen', q).value + end'
    ensures cs == ds && end == end' && forall c | c in cs :: r(Id(c)) == q(Id(c))
    decreases |cs|
  {
    hide Id;
    hide Lines;
    hide ComponentOk;
    hide NoBreak;
    if cs != [] {
      LineSplit(cs, seen, r, end);
    } else {
      NoLines(seen, r, end);
    }
    if ds != [] {
      LineSplit(ds, seen', q, end');
    } else {
      NoLines(seen', q, end');
    }
    if cs != [] && ds != [] {
      var c, d := cs[0], ds[0];
      assert c in cs && d in ds && (forall x | x in cs[1..] :: x in cs) && forall x | x in ds[1..] :: x in ds;
      var v, w := r(Id(c)).value, q(Id(d)).value;
      var rest, rest' := Lines(Ids(cs[1..]), seen + {Id(c)}, r).value + end, Lines(Ids(ds[1..]), seen' + {Id(d)}, q).value + end';
      LineCancel(Id(c) + (": " + v), rest, Id(d) + (": " + w), rest');
      ComponentLineCancel(c, v, d, w);
      LinesCancel(cs[1..], seen + {Id(c)}, r, end, ds[1..], seen' + {Id(d)}, q, end');
      assert cs == [c] + cs[1..] && ds == [d] + ds[1..];
    } else if cs != [] {
      NoLineIn(end', Id(cs[0]) + (": " + r(Id(cs[0])).value), Lines(Ids(cs[1..]), seen + {Id(cs[0])}, r).value + end);
    } else if ds != [] {
      NoLineIn(end, Id(ds[0]) + (": " + q(Id(ds[0])).value), Lines(Ids(ds[1..]), seen' + {Id(ds[0])}, q).value + end');
    }
  }

  lemma NoLines(seen: set<string>, r: Resolver, end: string)
    ensures Lines(Ids([]), seen, r) == Ok("") && "" + end == end
  {
  }

  lemma LineSplit(cs: seq<Component>, seen: set<string>, r: Resolver, end: string)
    requires cs != [] && ComponentOk(cs[0]) && Lines(Ids(cs), seen, r).Ok?
    ensures var id := Id(cs[0]);
            && r(id).Some? && Lines(Ids(cs[1..]), seen + {id}, r).Ok? && NoBreak(id + (": " + r(id).value))
            && Lines(Ids(cs), seen, r).value + end
               == id + (": " + r(id).value) + ("\n" + (Lines(Ids(cs[1..]), seen + {id}, r).value + end))
  {
    hide Id;
    hide Lines;
    var id := Id(cs[0]);
    LinesFirst(Ids(cs), seen, r);
    assert Ids(cs)[0] == id && Ids(cs)[1..] == Ids(cs[1..]);
    var line, rest := id + (": " + r(id).value), Lines(Ids(cs[1..]), seen + {id}, r).value;
    IdOneLine(cs[0]);
    OneLineJoin(": ", r(id).value);
    OneLineJoin(id, ": " + r(id).value);
    Regroup(line, "\n" + rest, end);
    Regroup("\n", rest, end);
  }

  /** The signature base is unambiguous: equal bases come from the same components in the same order, with the
      same values and the same signature parameters. */
  lemma BaseUnambiguous(cs: seq<Component>, sp: string, r: Resolver, ds: seq<Component>, sp': string, q: Resolver)
    requires (forall c | c in cs :: ComponentOk(c)) && (forall d | d in ds :: ComponentOk(d)) && NoBreak(sp) && NoBreak(sp')
    requires Base(Ids(cs), sp, r).Ok? && Base(Ids(cs), sp, r) == Base(Ids(ds), sp', q)
    ensures cs == ds && sp == sp' && forall c | c in cs :: r(Id(c)) == q(Id(c))
  {
    hide Id;
    hide Lines;
    hide ComponentOk;
    OneLineJoin(PARAMS_LABEL, sp);
    OneLineJoin(PARAMS_LABEL, sp');
    hide NoBreak;
    LinesCancel(cs, {}, r, PARAMS_LABEL + sp, ds, {}, q, PARAMS_LABEL + sp');
    Cancel(PARAMS_LABEL, sp, PARAMS_LABEL, sp');
  }

  // ---------------------------------------------------------------------------
  // The parameters are determined too
  // ---------------------------------------------------------------------------

  /** Two printed values at the front of the same text are the same value. */
  lemma ValueCancel(v: Bare, r: string, w: Bare, t: string)
    requires (v.Int? || (v.Str? && Printable(v.s))) && (w.Int? || (w.Str? && Printable(w.s)))
    requires Follows(r) && Follows(t) && ValueText(v) + r == ValueText(w) + t
    ensures v == w && r == t
  {
    ValueStart(v, r);
    ValueStart(w, t);
    hide ValueText;
    if v.Str? {
      StrCancel(v.s, r, w.s, t);
    } else {
      IntCancel(v.n, r, w.n, t);
    }
  }

  lemma StrParts(s: string, r: string)
    ensures ValueText(Str(s)) + r == "=" + ("\"" + EscapeRest(s) + r)
  {
    hide EscapeRest;
    assert ValueText(Str(s)) == "=" + ("\"" + EscapeRest(s));
    Regroup("=", "\"" + EscapeRest(s), r);
  }

  lemma StrCancel(a: string, r: string, b: string, t: string)
    requires Printable(a) && Printable(b) && ValueText(Str(a)) + r == ValueText(Str(b)) + t
    ensures a == b && r == t
  {
    hide ValueText;
    hide EscapeRest;
    hide ParseString;
    StrParts(a, r);
    StrParts(b, t);
    Cancel("=", "\"" + EscapeRest(a) + r, "=", "\"" + EscapeRest(b) + t);
    StringBack(a, r);
    StringBack(b, t);
  }

  lemma IntCancel(m: int, r: string, n: int, t: string)
    requires Follows(r) && Follows(t) && ValueText(Int(m)) + r == ValueText(Int(n)) + t
    ensures m == n && r == t
  {
    hide IntText;
    Regroup("=", IntText(m), r);
    Regroup("=", IntText(n), t);
    Cancel("=", IntText(m) + r, "=", IntText(n) + t);
    IntTextCancel(m, r, n, t);
  }

  /** The character after the equals sign tells a string from an integer. */
  lemma ValueStart(v: Bare, r: string)
    requires v.Int? || v.Str?
    ensures |ValueText(v) + r| > 1 && ((ValueText(v) + r)[1] == '\"' <==> v.Str?)
  {
    if v.Int? {
      IntStart(v.n, "");
      assert IntText(v.n) + "" == IntText(v.n);
      assert (ValueText(v) + r)[1] == IntText(v.n)[0];
    } else {
      assert (ValueText(v) + r)[1] == '\"';
    }
  }

  lemma ParamCancel(p: Param, r: string, q: Param, t: string)
    requires ListedParam(p) && ListedParam(q) && Follows(r) && Follows(t)
    requires p.key + ValueText(p.value) + r == q.key + ValueText(q.value) + t
    ensures p == q && r == t
  {
    var a, b := ValueText(p.value) + r, ValueText(q.value) + t;
    Regroup(p.key, ValueText(p.value), r);
    Regroup(q.key, ValueText(q.value), t);
    assert a[0] == '=' && b[0] == '=';
    hide ValueText;
    hide Follows;
    Munch(p.key, a, q.key, b, KeyChar);
    ValueCancel(p.value, r, q.value, t);
  }

  lemma {:induction false} ParamsTextInjective(ps: seq<Param>, qs: seq<Param>)
    requires (forall p | p in ps :: ListedParam(p)) && (forall q | q in qs :: ListedParam(q)) && ParamsText(ps) == ParamsText(qs)
    ensures ps == qs
  {
    hide ListedParam;
    hide ValueText;
    hide Follows;
    hide Ends;
    if ps != [] {
      ParamsSplit(ps, "");
      assert ParamsText(ps) + "" == ParamsText(ps);
    }
    if qs != [] {
      ParamsSplit(qs, "");
      assert ParamsText(qs) + "" == ParamsText(qs);
    }
    if ps != [] && qs != [] {
      var r, t := ParamsText(ps[1..]) + "", ParamsText(qs[1..]) + "";
      assert r == ParamsText(ps[1..]) && t == ParamsText(qs[1..]);
      assert ps[0] in ps && qs[0] in qs && (forall p | p in ps[1..] :: p in ps) && forall q | q in qs[1..] :: q in qs;
      EndEnds();
      ParamsHead(ps[1..], "");
      ParamsHead(qs[1..], "");
      var a, b := ps[0].key + ValueText(ps[0].value), qs[0].key + ValueText(qs[0].value);
      Cancel(";", a + r, ";", b + t);
      ParamCancel(ps[0], r, qs[0], t);
      ParamsTextInjective(ps[1..], qs[1..]);
      assert ps == [ps[0]] + ps[1..] && qs == [qs[0]] + qs[1..];
    } else {
      assert ps == [] ==> ParamsText(ps) == "";
    }
  }

  lemma EndEnds()
    ensures Ends("")
  {
  }

  lemma SerializedOneLine(cs: seq<Component>, p: SignatureParams)
    requires (forall c | c in cs :: ComponentOk(c)) && PrintableParams(p)
    ensures NoBreak(Serialize(Ids(cs), p).value)
  {
    hide ComponentOk;
    ListIsJoin(cs);
    ListOneLine(cs);
    Listed(p);
    ParamsOneLine(ParamList(p));
    hide ParamList;
    hide ParamsText;
    hide NoBreak;
    var tail := ParamsText(ParamList(p));
    Regroup(Join(Ids(cs), " "), ")", tail);
    assert Serialize(Ids(cs), p).value == "(" + (ListText(cs) + tail);
    OneLineJoin(ListText(cs), tail);
    assert NoBreak("(") by { Bracket(); }
    OneLineJoin("(", ListText(cs) + tail);
  }

  lemma Bracket()
    ensures NoBreak("(") && NoBreak(")") && NoBreak(" ")
  {
  }

  lemma {:induction false} ListOneLine(cs: seq<Component>)
    requires forall c | c in cs :: ComponentOk(c)
    ensures NoBreak(ListText(cs))
  {
    hide Id;
    hide ComponentOk;
    hide NoBreak;
    Bracket();
    if cs != [] {
      assert cs[0] in cs && forall c | c in cs[1..] :: c in cs;
      IdOneLine(cs[0]);
      OneLineJoin(Id(cs[0]), ")");
      if |cs| > 1 {
        ListOneLine(cs[1..]);
        OneLineJoin(" ", ListText(cs[1..]));
        OneLineJoin(Id(cs[0]), " " + ListText(cs[1..]));
      }
    }
  }

  /** For a signer: equal bases come from the same components, values and parameters, whatever their number
      and whatever the integers. */
  lemma SignedBaseUnambiguous(
      cs: seq<Component>, p: SignatureParams, r: Resolver, ds: seq<Component>, p': SignatureParams, q: Resolver)
    requires (forall c | c in cs :: ComponentOk(c)) && (forall d | d in ds :: ComponentOk(d)) && PrintableParams(p) && PrintableParams(p')
    requires Base(Ids(cs), Serialize(Ids(cs), p).value, r).Ok?
    requires Base(Ids(cs), Serialize(Ids(cs), p).value, r) == Base(Ids(ds), Serialize(Ids(ds), p').value, q)
    ensures cs == ds && p == p' && forall c | c in cs :: r(Id(c)) == q(Id(c))
  {
    hide Base;
    hide ComponentOk;
    hide Id;
    hide ParamList;
    hide ParamsText;
    SerializedOneLine(cs, p);
    SerializedOneLine(ds, p');
    BaseUnambiguous(cs, Serialize(Ids(cs), p).value, r, ds, Serialize(Ids(ds), p').value, q);
    var list := Join(Ids(cs), " ");
    var a, b := ParamsText(ParamList(p)), ParamsText(ParamList(p'));
    Cancel("(", list + (")" + a), "(", list + (")" + b));
    Cancel(list, ")" + a, list, ")" + b);
    Cancel(")", a, ")", b);
    Listed(p);
    Listed(p');
    hide ListedParam;
    ParamsTextInjective(ParamList(p), ParamList(p'));
    ListMeans(p);
    ListMeans(p');
  }
}
